# Verified models of the org.conman Lua modules

Dafny models of the modules whose correctness is hard to see from their text, with proofs of what each is for. Objects
that change in place are classes, loops are loops with invariants, and each such method is proved against a
specification function whose own laws are lemmas. `dafny verify dfyconfig.toml` checks everything.

**Coroutine scheduler** (`Timers`, `Scheduler`, `SchedulerLaws`; `lua/nfl.lua`). The timeout queue is a min-heap that
is also indexed by coroutine. The scheduler holds that heap, the run queue with its flags, the set and the count of
live coroutines, and two ghost records: every job ever accepted, and a log of what the run phase did. `Valid()` says
that the heap is sound, that nobody is queued twice, that the flags are those of the queue, that the count is the
number of coroutines not dead, that the jobs served so far followed by those in the queue are the jobs accepted (so
service is first in, first out), that no one in the log is resumed after its death, that only the dead are passed
over, that each timer in the heap is as it was set and armed unless it was cancelled, and that the index has every
timer of a coroutine that never set one while it had one in the heap. A `Book` says of the timers what was set, what
waits, what the index has and what was cancelled; the reference run keeps it call by call, and `SchedulerLaws` draws
the consequences. What coroutines and event handlers do, the clock, and whether waiting for events works are scripts
(`Turn`, `Resumption`, `Call`), so a statement about every script is one about every run. The asserts of the source
(`REFQUEUE._n > 0`) and its should-never-happen branch are proved not to fail and not to be reached.

**Text wrapping** (`Text`, `Wrap`, `WrapLaws`) and **escaping** (`Escape`; both `src/strcore.c`). `Wrapt` is the loop
with its five cursors, `Wrapped` the specification by glyphs, and `WrappedLaw` what wrapping promises. The gap between
two lines is empty, one space, one NEL, or one hyphen that comes just past the margin. `Unescape` undoes both
escapers.

**Signals** (`Signals`; the POSIX half of `src/signal.c`). A schedule says which signals arrive at each point where
the main thread can be interrupted, so a statement about every schedule is one about every interleaving of arrivals
with the steps of the hook's backend. A ghost log has the arrivals, the dispatches and the signals taken back; an
`Account` of it says that just the schedule's signals arrive, that just the calls of Lua code take signals back and
change handlers, and that the Lua functions run one to a dispatch.

**ZIP records** (`Zip`, `ZipWrite`, `ZipBack`, `ZipParse`, `ZipRead`, `ZipLaws`, `ZipForeign`, `ZipTrip`; `lua/zip`).
`Zip` says which bytes a record prints as and `ZipWrite` has the printers; `ZipParse` says what comes of the bytes of
any file, well formed or not, and `ZipRead` has the parsers; `ZipBack` says what is to come back, and `ZipLaws` and
`ZipTrip` have the round trips, and `ZipForeign` what becomes of bytes that no printer here makes. What does not come
back is spelled out: the flag for strong encryption (the printer tests a misspelt field, `lua/zip/write.lua:105`), the
low bit of the seconds, the name of an unknown operating system, extra fields under ids that are only named, language
extensions that are empty or have a field over 255 bytes, an empty comment of the end record (it comes back as none),
and, in directory entries, the bytes of extra fields, of which the parser tells only the size.

**Buffered streams** (`Drains`, `Ios`; `lua/net/ios.lua` and the partial-send loop of `lua/nfl/tcp.lua`). The chunks
the transport hands over and what each send does are scripts. A ghost list has every drain with what it was to send,
what it sent, and whether it worked; the list is what the script makes of it, and the wire is what the list makes of
the stream.

**Base-64** (`Base64`, `Base64Laws`; `src/base64.c`), **CRC-32** (`Crc`; `src/crc.c`) and **calendar arithmetic**
(`Date`; `lua/date.lua`). CRC-32 follows section 8 of RFC 1952, Base-64 section 4 and, for strict decoding, section
3.5 of RFC 4648.

Findings, each stated exactly in the model and shown at an input in `Examples`:

- `timeout(0)` disarms the one timer the index knows. It leaves a timer of the coroutine armed exactly when an armed one
  in the heap is not the indexed one (`TimerQueue.Cancel`; `TwoTimers`, `OneLeft`). For a coroutine that itself sets a
  timer only when it has none in the heap, that never happens, whatever others do: the index has all its timers in every
  reachable state (`TimerQueue.Valid`, `Scheduler.Timeout`, `Scheduler.EventLoop`). Once one has set two, the index may
  stay incomplete even when only one of them is left.
- An encoding that ends in a newline cannot be decoded by the codec that made it: an assertion of the decoder fails,
  since the end of the text is then read as four missing characters (`RoundTrip`; `FullLine`). So it is with any text
  that could be decoded but for something passed over at its end (`DecodesBefore`).
- When a drain fails after it has sent part of its data, that part stays in the buffer and goes out again: the stream is
  exactly what was written if and only if every drain that failed had sent nothing (`Ios.Run`; `SentTwice`). With no
  error in what was used of the socket's script, none fails.
- An end record is found again exactly when its own bytes hold no later end signature (`DirectoryReadsBack`;
  `HiddenEnd`).
- A file's header that is the last thing in a file comes back exactly if the part of it printed last is not empty, since
  reading nothing at the end of a file gives nothing (`FileReadsBack`; `BareHeader`, the header as it is when new).
- Once the event handler has noted the end of a connection, `read("*l")` gives all that is buffered in one piece, however
  many lines that is (`ReadLine`; `HungUp`).
- The code of a four-byte character is put together with the mask 0xF1 (`src/strcore.c:370`), so that every such
  character is of the class Char (`FourBytesAreChar`; `LongSpace`).

## Model

| member | source | states |
|---|---|---|
| Timers.RootIsLeastOfAll | lua/nfl.lua:166-173 | The timer the loop looks at first wakes no later than any other in the heap. |
| Timers.InsertedIndex | lua/nfl.lua:83-85 | Indexing a new timer keeps the index sound, and keeps it complete exactly when the coroutine had no timer in the heap. |
| Timers.RemovedIndex | lua/nfl.lua:108-110 | Clearing the index of a removed timer's coroutine keeps the index sound, and complete if it was. |
| Timers.InsertedTraces | lua/nfl.lua:83-85 | Indexing a new timer keeps all timers indexed of each coroutine that never set one while it had one in the heap. |
| Timers.RemovedTraces | lua/nfl.lua:108-110 | So does removing a timer. |
| Timers.TimerQueue.Insert | lua/nfl.lua:63-86 | The heap stays ordered and gains exactly the new timer, due `when` from now; the index holds it as its coroutine's latest, and stays exact exactly if the coroutine had none in the heap; the book has it as it was set. |
| Timers.TimerQueue.BubbleUp | lua/nfl.lua:64-71 | Repairs a heap that is in order everywhere but above one position, and loses no timer. |
| Timers.TimerQueue.Remove | lua/nfl.lua:90-118 | Takes out a least timer and nothing else; the heap stays ordered and the index sound, and the book loses just that timer. |
| Timers.TimerQueue.BubbleDown | lua/nfl.lua:91-106 | Repairs a heap that is in order everywhere but below one position, and loses no timer. |
| Timers.TimerQueue.Cancel | lua/nfl.lua:148-152 | Just the indexed timer is disarmed; the coroutine has no armed timer left exactly if it had none but the indexed one, and always if it never set a timer while it had one. |
| Scheduler.Scheduler.Schedule | lua/nfl.lua:122-127 | A coroutine already queued is not queued again, any other goes to the back; all of the state stays consistent. |
| Scheduler.Scheduler.Spawn | lua/nfl.lua:131-141 | A new coroutine is alive, counted and queued; the count stays the number of coroutines not dead. |
| Scheduler.Scheduler.Timeout | lua/nfl.lua:145-156 | Zero disarms just the running coroutine's indexed timer, and all its timers if it set each of them when it had none; anything else adds one timer. |
| Scheduler.Scheduler.PerformOne | lua/nfl.lua:122-156 | What each call does to the run queue, the coroutines and the timers, whoever makes it: a timer is set for the running coroutine, at its time and with its values; timeout(0) cancels just the one the index has; nothing else touches any. |
| Scheduler.Scheduler.Perform | lua/nfl.lua:193-195 | Any sequence of calls keeps every invariant, kills nobody, and queues, spawns, sets and cancels just what its calls do, in order; no timer leaves the heap and none is armed again. |
| Scheduler.CalledInTurn | lua/nfl.lua:122-141 | Calls in two groups do to the run queue what they do one group after the other. |
| Scheduler.NotedInTurn | lua/nfl.lua:145-156 | And so to the timers. |
| Scheduler.WokenExactly | lua/nfl.lua:166-181 | The timers that go off queue the coroutine of each armed one that is alive, add nothing but such jobs, and keep what was queued in front. |
| Scheduler.ExpiredAreQueued | lua/nfl.lua:166-181 | Every armed timer of a live coroutine that is due has its coroutine in the queue. |
| Scheduler.Scheduler.TimerPhase | lua/nfl.lua:163-185 | It ends; timers go off once each, in the order of wake times, up to an armed one that is due later; due ones are queued, cancelled ones cause nothing, those left are all later than now; the wait is zero if anything is runnable, else the time to the least timer left, else what the last armed timer left of it, or -1 without one. |
| Scheduler.LogTaken | lua/nfl.lua:198-207 | Serving a job keeps "none is resumed after its death" and "only the dead are passed over". |
| Scheduler.Scheduler.Dequeue | lua/nfl.lua:198-204 | The first job is served, its flag is cleared, and nobody dead is resumed. |
| Scheduler.Scheduler.Park | lua/nfl.lua:217-221 | A coroutine that has ended is counted out once; the count was positive, as the source asserts. |
| Scheduler.Scheduler.Resume | lua/nfl.lua:206-221 | Whatever the coroutine does before it yields or ends, its calls have had their effect, all invariants hold and no other coroutine has changed its status. |
| Scheduler.Scheduler.RunOne | lua/nfl.lua:198-248 | One job is served: a dead coroutine is passed over and nothing else changes; a live one makes the calls of one resumption, on the queue and on its timers, and yields or dies, whoever else keeping their status. |
| Scheduler.Scheduler.RunPhase | lua/nfl.lua:197-249 | The queue is served in order until it is empty: queue, coroutines, timers and log come out as the reference run of the script says, with every call made; the branch for unexpected states is not reached. |
| Scheduler.Scheduler.Serve | lua/nfl.lua:193-249 | The handlers' calls take effect before the queue is served. |
| Scheduler.QueuedIsAttended | lua/nfl.lua:197-249 | Whoever was in the queue still is, or has come out of it since. |
| Scheduler.AttendedIsHeard | lua/nfl.lua:201-207 | Whoever has come out of the queue and is alive has been resumed. |
| Scheduler.Scheduler.TakeTurn | lua/nfl.lua:163-249 | A turn comes out as the reference says, given the timers that went off, which are those that should: the coroutines of due timers are queued and, unless they are still in the queue, have come out of it in the run phase; it waits as it should, and no timer that was there and due stays in the heap. |
| Scheduler.Scheduler.NextTurn | lua/nfl.lua:163-249 | A turn keeps, of timers set before, that the armed ones of live coroutines have not been due or have had their coroutines resumed. |
| Scheduler.SpentMore | lua/nfl.lua:160-252 | The account of one turn adds up with that of the turns before. |
| Scheduler.Scheduler.EventLoop | lua/nfl.lua:160-252 | Every run keeps all invariants and comes out as the reference turns say, timers included; the loop takes a turn just when nobody is to stop it and, for a client, someone lives, and otherwise ends only for want of turns or resumptions in the script; every timer that was set before, that is never cancelled, that was due in a turn taken and whose coroutine lives has had its coroutine resumed, or has it in the queue; the index has all timers of each coroutine that never set one while it had one. |
| Scheduler.Scheduler.ClientEventLoop | lua/nfl.lua:256-259 | With no condition of the caller's, it returns only when every coroutine is dead, and otherwise only at the end of the script; due timers are answered as in EventLoop. |
| SchedulerLaws.IdleTurn | lua/nfl.lua:187-197 | A turn in which waiting fails has its timers go off and does nothing else; one with nothing to do changes nothing. |
| SchedulerLaws.TurnsAsk | lua/nfl.lua:145-252 | The timers set in a run are, in order, just those its resumptions ask for, each for the coroutine resumed. |
| SchedulerLaws.AfterOnward | lua/nfl.lua:148-169 | From turn to turn what was set stays as it was set, what was cancelled stays cancelled, and what has left the heap stays out. |
| SchedulerLaws.GoesOffOnce | lua/nfl.lua:166-181 | No timer goes off in two turns. |
| SchedulerLaws.WokenAsSet | lua/nfl.lua:166-177 | No coroutine is woken by a timer that was cancelled in any turn before, nor before the time or with other values than those of the call that set it. |
| SchedulerLaws.QuietIsNotWoken | lua/nfl.lua:145-177 | A coroutine whose timers are all cancelled, and that sets none in a run, is woken by no timer in it. |
| Text.CharsMatch | src/strcore.c:78-392 | A character that is not bad is not empty and does not reach past the end. |
| Text.GoodIf | src/strcore.c:330-385 | A character is good exactly if its first byte may begin one and all of its tail is there; DEL is not. |
| Text.ClassOfUtf8 | src/strcore.c:330-391 | UTF-8 of one to three bytes is given the class of its code. |
| Examples.KnownClasses | src/strcore.c:80-324 | Characters of each class, and the edges of its ranges. |
| Text.FourBytesAreChar | src/strcore.c:366-385 | Every four-byte character is of the class Char; the mask of the encoding would find another class only for one written in more bytes than it needs. |
| Text.MatchIsLocal | src/strcore.c:326-391 | A character's class depends on its own bytes and not on where they stand. |
| Text.ScanOfBytes | src/strcore.c:326-391 | Scanning undoes joining characters up. |
| Wrap.RemShy | src/strcore.c:396-416 | Gives the characters of a span without the soft hyphens in it, but for a last one. |
| Wrap.BreaksSomewhere | src/strcore.c:524-542 | Every line takes something in: with a margin, or without one if the text has only characters that lines can be broken at or that take no room. |
| Wrap.Wrapt | src/strcore.c:420-550 | It ends although it goes back; it gives the specified lines for well-formed text and the error "bad character" for any other. |
| WrapLaws.BreakFits | src/strcore.c:524-542 | A line that is broken is within the margin, and what is dropped after it is nothing, one space, one NEL, or one hyphen just past the margin. |
| WrapLaws.BreakIsLatest | src/strcore.c:420-550 | Every place to break later on lies past the margin or past a forced break. |
| WrapLaws.LinesTile | src/strcore.c:437-549 | Spans and gaps follow one another to the end of the text, each gap is allowed, each span is within the margin and has no forced break; a line is broken only where the next character is too much, at the last place there is, and inside a word only if the line has no space, hyphen or soft hyphen with room to break at. |
| WrapLaws.BreakIsWell | src/strcore.c:524-542 | One such break: a word is cut only on a line without a place to break at, and then just before the character that is too much. |
| WrapLaws.TilingIsOnly | src/strcore.c:420-550 | There is only one way to break a text so. |
| WrapLaws.WidthIsCounted | src/strcore.c:446-511 | A line is as wide as it has characters that are neither combining nor soft hyphens. |
| WrapLaws.ShownIs | src/strcore.c:396-416 | A line is printed without its soft hyphens, but for one at its very end. |
| WrapLaws.RenderIs | src/strcore.c:524-549 | Each line printed is its span, without those. |
| WrapLaws.TilesRejoin | src/strcore.c:437-549 | Spans and gaps joined up are the text. |
| WrapLaws.LineReadsBack | src/strcore.c:396-416 | A printed line is well-formed text with the width and the printing characters of its span. |
| WrapLaws.RenderKeeps | src/strcore.c:396-549 | All lines fit the margin, and their printing characters are those of the text, in order. |
| WrapLaws.WrappedLaw | src/strcore.c:420-550 | All of it, for every well-formed text and every margin with which wrapping ends. |
| Escape.SafeAscii | src/strcore.c:843-869 | Gives the text whose laws are AsciiReadsBack and AsciiStaysIff. |
| Escape.AsciiReadsBack | src/strcore.c:818-869 | One reader gets every byte string back from its ASCII form, which is all printable ASCII. |
| Escape.Utf8 | src/strcore.c:873-926 | One step of the escaper: it moves on, and adds just what is owed for the bytes it takes. |
| Escape.SafeUtf8 | src/strcore.c:930-970 | Gives the text whose laws are Utf8ReadsBack, Utf8IsWellFormed, Utf8StaysIff and Utf8ByGlyph. |
| Escape.Utf8ReadsBack | src/strcore.c:818-970 | The same reader gets every byte string back from its UTF-8 form. |
| Escape.Utf8IsWellFormed | src/strcore.c:930-970 | The UTF-8 form of any byte string has no bad character, so wrapping never turns it down. |
| Escape.AsciiStaysIff | src/strcore.c:843-869 | Just the texts of printable ASCII without a backslash are left as they are. |
| Escape.LettersAre | src/strcore.c:818-839 | Letters stand for the seven control characters from BEL to CR, three digits for all else that is escaped but the backslash. |
| Escape.Utf8StaysIff | src/strcore.c:930-970 | Just the well-formed texts without control characters and backslashes are left as they are. |
| Escape.Utf8ByGlyph | src/strcore.c:873-970 | A byte that begins no character is escaped alone, and so is a control character; every other character but a backslash is left as it is, whatever is around it. |
| Signals.NotOutstandingIsAnswered | src/signal.c:739-769 | Every arrival of a signal has a later dispatch, or was later taken back, exactly when the last thing that happened to it is not an arrival. |
| Signals.Signals.SignalHandler | src/signal.c:783-794 | An arrival puts up the flag, the work flag and the hook, and is accounted for. |
| Signals.Signals.Interrupt | src/signal.c:783-815 | Just the signals due arrive; arrivals between any two steps break neither "what is flagged will still be seen" nor "what is flagged has the hook". |
| Signals.Signals.Caught | src/signal.c:1018-1022 | Tells whether the signal was flagged, and takes it back. |
| Signals.Signals.ResetAll | src/signal.c:1004-1016 | Tells whether any signal from 1 up was flagged, and takes all of them back. |
| Signals.Signals.Perform | src/signal.c:1131-1268 | Which handlers each call changes and to what, and which signals, in order, it takes back; nothing else changes; it loses no signal that still has a handler. |
| Signals.StillUnhandled | src/signal.c:1131-1268 | A signal without a Lua handler gets one only from a catch with a function. |
| Signals.SilentOn | src/signal.c:749-766 | Where no signal is dispatched that has no handler at the time, none is in two steps in a row. |
| Signals.WentOn | src/signal.c:739-815 | What has arrived, been taken back and changed handlers adds up from step to step. |
| Signals.PlayOn | src/signal.c:739-769 | So does which Lua functions have run, one to a dispatch. |
| Signals.Signals.Serve | src/signal.c:753-763 | The flag goes down and the Lua function is called, with arrivals in between; only its calls take signals back; a signal that comes again meanwhile will be seen. |
| Signals.Signals.Look | src/signal.c:749-766 | One round of the scan, with arrivals between any two of its steps: a flagged signal with a handler is dispatched, and signals passed by with the flag up will be seen in another scan. |
| Signals.Signals.ScanAll | src/signal.c:747-767 | Every signal flagged with a handler when the scan begins, and taken back by no call, is dispatched in it; signals are dispatched in rising order. |
| Signals.Signals.Sweep | src/signal.c:745-767 | So it is when arrivals come before, within and after the scan; the work flag is down unless some came. |
| Signals.Signals.Backend | src/signal.c:739-769 | However many signals arrive, it ends, and has dispatched every signal that was flagged with a handler when it began and that no call takes back, and none that had no handler and was given none; the hook is installed again for any that is flagged; with no arrival, all flags that have a handler are down. Just the schedule's signals have arrived, and only the Lua functions dispatched have taken signals back. |
| Signals.UntakenStays | src/signal.c:739-815 | A signal that no call takes back is not taken back at all. |
| Signals.NoneLost | src/signal.c:739-815 | What answers the arrival of a signal that is not taken back is a dispatch. |
| Signals.AllAccounted | src/signal.c:739-769 | Signals whose flag is down are answered, and none is dispatched more often than it arrived. |
| Signals.Signals.Run | src/signal.c:739-815 | For every program and schedule: just the schedule's signals arrive, and all calls are made; any instruction dispatches the signals flagged with a handler that no call takes back, however many keep arriving; no signal is dispatched that has no handler and is given none; without the hook, each arrival of a signal with a handler that no call takes back is followed by a dispatch; dispatches never exceed arrivals; after the last arrivals the next instruction leaves no hook. |
| Signals.Signals.Settle | src/signal.c:739-769 | Once no more arrive, the next instruction leaves every signal that has a handler answered, with a dispatch if no Lua function takes it back, and dispatches none without one. |
| ZipWrite.Sink.W32 | lua/zip/write.lua:51-62 | Little-endian bytes, as two little-endian words. |
| ZipWrite.Sink.WriteFlags | lua/zip/write.lua:97-112 | The flag word, with the bit for strong encryption never set. |
| ZipWrite.PrintLanguage | lua/zip/write.lua:263-293 | The tagged fields of a language extension, or nothing if it is empty or one of them is too long. |
| ZipWrite.PrintExtras | lua/zip/write.lua:350-361 | Just the extra fields that are written, in the order met. |
| ZipWrite.Sink.WriteFile | lua/zip/write.lua:348-376 | Prints a header at the position it gives. |
| ZipWrite.Sink.WriteDir | lua/zip/write.lua:304-344 | Prints the entries in order, and gives where they start and how many bytes they are. |
| ZipWrite.Sink.WriteEocd | lua/zip/write.lua:203-213 | Prints the end record. |
| ZipBack.FlagsComeBack | lua/zip/read.lua:97-124 | The flags taken off a printed word are the flags printed, strong encryption cleared. |
| ZipBack.FlagsAreBits | lua/zip/read.lua:97-124 | Each flag taken off any word is its own bit of it, or two; strong encryption is bit 6. |
| ZipBack.WordIsItsFlags | lua/zip/read.lua:97-124 | Any word is the flags taken off it put together again, with bit 6 and the four bits that are skipped. |
| ZipBack.StampComesBack | lua/zip/read.lua:62-81 | The time in printed words is the time printed, with its seconds rounded down to even. |
| ZipBack.WordsOfStamp | lua/zip/read.lua:64-81 | Any two words of time and date are those of the stamp made of them. |
| ZipBack.OsComesBack | lua/zip/read.lua:85-93 | A known operating system comes back, any other as MS-DOS. |
| ZipBack.OsUnknown | lua/zip/read.lua:85-93 | A code that the table does not have has the name of no system. |
| ZipBack.WrittenOrNot | lua/zip/write.lua:217-296 | Bytes are written under an id with no entry in the table, and not under one that is only named; no language extension that is empty or has a field over 255 bytes is. |
| ZipBack.TagsInAre | lua/zip/write.lua:276-287 | Only the tags there are matter to the bytes of a language extension, in any order of traversal. |
| ZipBack.KeptSame | lua/zip/write.lua:350-361 | What is not written changes neither the bytes nor what comes back. |
| ZipRead.Source.R32 | lua/zip/read.lua:55-60 | Four bytes as two little-endian words, or an error at the end of the file. |
| ZipRead.Source.LanguageExtension | lua/zip/read.lua:257-291 | Does to any bytes what the function of LanguageReadsBack says: the fields, nothing if a length is too great, an error past the end. |
| ZipLaws.LanguageReadsBack | lua/zip/read.lua:257-291 | The fields of a printed language extension come back, but for an empty last one at the end of the file. |
| ZipRead.Source.ReadExtras | lua/zip/read.lua:374-386 | Does to any bytes what the function of ExtrasReadBack says. |
| ZipLaws.ExtrasReadBack | lua/zip/read.lua:374-386 | Printed extra fields come back, each under its id, but for an empty last part at the end of the file. |
| ZipRead.Source.ReadFile | lua/zip/read.lua:354-390 | Does to any bytes what the function of HeaderReadsBack says: no header without the signature, an error past the end. |
| ZipLaws.HeaderReadsBack | lua/zip/read.lua:354-390 | A printed header comes back, or what is left of it at the end of the file. |
| ZipLaws.FileCutIff | lua/zip/read.lua:371-386 | At the end of the file it comes back whole exactly if the part printed last is not empty. |
| ZipForeign.ReadAtIs | lua/zip/read.lua:371-380 | A read gives what it is asked for or all that is left, and nothing only at the end. |
| ZipForeign.LanguageOfAny | lua/zip/read.lua:257-291 | Of any tagged fields those under 1 to 8 are known, the last under each; an odd byte is left; a length that does not fit drops them all. |
| ZipForeign.LanguageItem | lua/zip/read.lua:374-386 | So with the id and the length before them. |
| ZipForeign.ExtrasOfAny | lua/zip/read.lua:374-386 | Extra fields under any other ids, those only named among them, come back as their bytes, the last under each id. |
| ZipForeign.NoRecord | lua/zip/read.lua:302-359 | There is a header or an entry just where its signature is. |
| ZipForeign.CutHeader | lua/zip/read.lua:354-390 | A header cut short before its first extra field raises an error. |
| ZipForeign.CutEntry | lua/zip/read.lua:302-350 | So does an entry of the directory. |
| ZipForeign.CutName | lua/zip/read.lua:368-371 | One cut short in its name, without extra fields to come, comes back with what there is of the name. |
| ZipForeign.CutComment | lua/zip/read.lua:322-343 | An entry cut short in its comment comes back with what there is of it. |
| ZipForeign.PlaceOfAny | lua/zip/read.lua:128-140 | Of the attributes just the low two bits count. |
| ZipRead.Source.NextDir | lua/zip/read.lua:305-347 | Does to any bytes what the function of EntryReadsBack says: no entry without the signature, an error past the end. |
| ZipLaws.EntryReadsBack | lua/zip/read.lua:305-347 | A printed entry comes back, and the next is in place. |
| ZipRead.Source.ReadDirs | lua/zip/read.lua:302-350 | Does to any bytes what the function of DirsReadBack says: entry after entry, up to the first place without the signature, or an error. |
| ZipLaws.DirsReadBack | lua/zip/read.lua:302-350 | A printed directory comes back whole, and the iterator stops at its end. |
| ZipRead.Source.LocateFrom | lua/zip/read.lua:145-164 | Finds the last end signature that leaves room for an end record and is no further from the end than its longest comment, and reports failure exactly if there is none. |
| ZipRead.Source.ReadEocd | lua/zip/read.lua:144-207 | Says for every file what comes of it: too short, no signature, bad comment length, bad offset, or the record after the last signature. |
| ZipBack.EocdReadsBack | lua/zip/read.lua:144-207 | What is found is the printed record exactly if its signature is the last and its directory lies before it. |
| ZipBack.EndFromIs | lua/zip/read.lua:166-204 | A record with bytes after its comment is a bad comment, one whose directory does not lie before it a bad offset, and any other is found. |
| ZipBack.CutEnd | lua/zip/read.lua:175-188 | So is one whose comment is cut short a bad comment. |
| ZipBack.EndRoom | lua/zip/read.lua:145-164 | The search looks just where what follows a record is as long as some comment can be. |
| ZipTrip.DirectoryReadsBack | lua/zip/read.lua:144-350 | Printing a directory and an end record, then parsing both, gives them back; exactly if no later signature is met; always if there is no comment. |
| ZipTrip.FileReadsBack | lua/zip/read.lua:354-390 | Printing a header and parsing it gives it back, wherever in a file it is, exactly if something follows it or its last part is not empty. |
| ZipTrip.ListBackAt | lua/zip/read.lua:302-350 | Entries come back one for one and in order. |
| ZipTrip.ExtrasBackAre | lua/zip/read.lua:374-386 | The extra fields that come back are just those that were written. |
| Ios.LinesArePieces | lua/net/ios.lua:158-182 | The lines are the pieces of the stream between its LFs, less one CR at the end of each but the last. |
| Ios.FindEolIsFirst | lua/net/ios.lua:172-172 | The match is at the first LF, with the CR before it if there is one. |
| Ios.EolIsLineEnd | lua/net/ios.lua:165-181 | A line end found past a stretch free of CR and LF is the first of the whole stream, whatever follows. |
| Ios.Ios.Refill | lua/net/ios.lua:57-66 | Takes in one chunk, or notes the end; what is left of the stream stays the same. |
| Ios.Ios.ReadLine | lua/net/ios.lua:158-182 | Depends only on what is left of the stream, not on how it comes in: the next line, else the raw tail, else nothing; once the end has been noted, all that is buffered. |
| Ios.Ios.HangUp | lua/nfl/tcp.lua:105-109 | The handler notes the end between two reads; what is buffered stays. |
| Ios.Ios.ReadAllLines | lua/net/ios.lua:158-182 | Reading until there is nothing gives the stream cut into its lines, or what is buffered in one piece once the end has been noted. |
| Ios.Ios.ReadBytes | lua/net/ios.lua:415-437 | The next bytes of the stream, however it is chunked, and nothing at its end. |
| Drains.OutIsPrefix | lua/nfl/tcp.lua:64-79 | Where no failed drain has sent anything, what is on the wire is the beginning of the stream. |
| Drains.WholeUnlessWasted | lua/nfl/tcp.lua:64-79 | What is sent, followed by what is to be sent, is the stream exactly if no failed drain has sent anything. |
| Drains.AllWorked | lua/nfl/tcp.lua:64-79 | With no error in what was used of the socket's script, and some of it left, every drain has worked. |
| Drains.SendingIs | lua/nfl/tcp.lua:64-79 | A drain sends all of its data if the socket takes that much before its first error, and else what it takes; it uses no more of the script than that takes. |
| Ios.Ios.Drain | lua/nfl/tcp.lua:64-79 | What it sends, and whether it works, is what the socket's script makes of it: on success exactly the data, over any number of partial sends; the byte count has grown by what was sent, on failure too. |
| Ios.Ios.DrainFront | lua/net/ios.lua:338-342 | The drain goes on record with what the script makes of it; what is sent leaves the buffer if it worked, and otherwise stays. |
| Ios.Ios.ModeNo | lua/net/ios.lua:313-319 | One drain of all that is buffered; success leaves nothing. |
| Ios.Ios.ModeLine | lua/net/ios.lua:321-334 | Drains of one line each up to the last LF, and then of one buffer each; success leaves what is after the last LF, or the end of it if that fills the buffer, and changes nothing in what is sent and buffered together; failure means that the last drain failed, and only it. |
| Ios.Ios.ModeFull | lua/net/ios.lua:336-346 | Drains of one buffer each, and none of less; success leaves less than that, the tail of what there was, the rest being sent; failure means that the last drain failed, and only it. |
| Ios.Ios.Write | lua/net/ios.lua:542-559 | Takes all of the data in order unless the stream is closed; it is drained as the mode has it, line by line or buffer by buffer; success puts it after what was sent and buffered, and leaves buffered what the mode allows and no less; on failure the last drain failed, and what it sent is all that is sent in vain. |
| Ios.Ios.Flush | lua/net/ios.lua:379-388 | One drain of what is buffered, if anything is; success leaves nothing. |
| Ios.Ios.Perform | lua/net/ios.lua:379-559 | Each call makes just the drains its mode has it make, keeps in the buffer what they have not got rid of, and changes mode and buffer size just where it sets them. |
| Ios.Ios.Run | lua/net/ios.lua:311-559 | After any run of calls, each of which does what it should, sent bytes followed by buffered ones are the bytes written, if and only if every drain that failed had sent nothing; so they are if what was used of the socket's script has no error; the calls fail exactly if a drain does. |
| Base64.Encode | src/base64.c:94-176 | Gives the encoding whose laws are RoundTrip and StrictIsCanonical. |
| Base64.ReadOut | src/base64.c:180-225 | The next value, past line ends and, if so set, past foreign characters; the end of the text is read again and again. |
| Base64.Decode | src/base64.c:246-291 | Gives the outcome whose laws are RoundTrip and StrictIsCanonical. |
| Base64.ReadManyShape | src/base64.c:229-242 | Values are six bits wide, and reading moves on but for what is missing. |
| Base64Laws.DecodedEncoding | src/base64.c:94-291 | Decoding what another codec with the same alphabet wrote gives the data, or the failed assertion exactly if it ends in a newline. |
| Base64Laws.NewlineWhen | src/base64.c:164-172 | An encoding ends in a newline exactly if its data is some whole lines. |
| Base64Laws.RoundTrip | src/base64.c:94-291 | For every byte string and usable codec, decoding undoes encoding, except exactly for whole lines at a limited length, where an assertion fails. |
| Base64Laws.StrictDecodes | src/base64.c:260-287 | Text in groups of four, padded only at its end, either decodes to the value that encodes to it, or is rejected and no value encodes to it. |
| Base64Laws.StrictIsCanonical | src/base64.c:260-287 | Strict decoding gives a value exactly if the text is that value's encoding without newlines. |
| Base64Laws.ReadIs | src/base64.c:180-225 | What is read is the first character that is not passed over; it is an error exactly if it is foreign. |
| Base64Laws.DecodesStripped | src/base64.c:180-291 | Line ends, at a limited length, and ignored characters make no difference, wherever they are but at the end. |
| Base64Laws.DecodesBefore | src/base64.c:180-291 | Text after a NUL makes no difference; but after something passed over at the end, what would have been decoded makes an assertion fail. |
| Crc.TableIsEight | src/crc.c:36-102 | Each of the 256 constants is eight steps of division. |
| Crc.Crc32 | src/crc.c:104-112 | Gives the CRC whose laws are CrcIsDivision, CrcComposes and BurstIsDetected. |
| Crc.UpdateIsEight | src/crc.c:108-109 | The table look-up for one byte is eight steps of division. |
| Crc.CrcIsDivision | src/crc.c:104-112 | On every message and start value the CRC is that of division one bit at a time by the reflected polynomial. |
| Crc.CrcIsComplement | src/crc.c:104-112 | The CRC starts and ends complemented. |
| Crc.CrcComposes | src/crc.c:104-112 | The CRC of two messages in a row is that of the second started from that of the first. |
| Crc.UpdatedIsOneToOne | src/crc.c:108-109 | Different registers stay different over the same message. |
| Crc.BlockAtOnce | src/crc.c:108-109 | Up to four bytes can be taken in at once as one word. |
| Crc.BurstIsDetected | src/crc.c:104-112 | Messages of equal length that differ only inside four consecutive bytes have different CRCs. |
| Date.DateReadsBack | lua/date.lua:49-93 | Every valid date of every year comes back from its Julian day. |
| Date.JulianDayReadsBack | lua/date.lua:49-93 | Every integer is the Julian day of the valid date it is turned into. |
| Date.OrderKept | lua/date.lua:49-63 | Julian days are in the order of the dates. |
| Date.WeekFollowsJulianDay | lua/date.lua:111-122 | The day of the week goes round with the Julian day. |
| Date.MonthLengths | lua/date.lua:138-149 | A month's length is the distance between its first and the next month's. |
| Date.YearTakenApart | lua/date.lua:80-93 | The divisions of the way back find century, year of the century and day of the year again. |
| Examples.TwoTimers | lua/nfl.lua:145-156 | A coroutine that has set two timers and cancels still has one armed. |
| Examples.OneLeft | lua/nfl.lua:108-110 | So has one of whose two timers one has gone off; the index has no timer of it then. |
| Examples.FullLine | src/base64.c:164-172 | The encoding of three bytes in lines of four characters makes the decoder's assertion fail. |
| Examples.SentTwice | lua/nfl/tcp.lua:64-79 | A drain that fails after one of two bytes sends that byte twice. |
| Examples.HiddenEnd | lua/zip/read.lua:145-164 | A comment that holds an end record is found instead of the record it belongs to. |
| Examples.BareHeader | lua/zip/write.lua:174-197 | A new header, alone in its file, comes back without a name. |
| Examples.HungUp | lua/nfl/tcp.lua:105-109 | Two lines buffered when the connection goes are read as one. |
| Examples.LongSpace | src/strcore.c:366-385 | A space written in four bytes is of the class Char. |
| Examples.KnownDay | lua/date.lua:49-63 | The first of January 2000 is Julian day 2451545. |
| Examples.KnownCrc | src/crc.c:36-112 | The CRC of the letter a. |
| Examples.KnownBase64 | src/base64.c:94-176 | Test vectors of section 10 of RFC 4648, with a newline where a line is full. |
| Examples.Controls | src/strcore.c:818-839 | Which letters and which digits stand for control characters. |
| Examples.AboutLayout | lua/zip/write.lua:365-370 | Where the common fields of a header are among its bytes. |
| Examples.EndLayout | lua/zip/write.lua:203-213 | And those of an end record. |

## Left out

- Scheduler.Turn: event handlers set no timeouts, because they run on the main thread, which is not a spawned coroutine and would then be resumed.
- Scheduler.Scheduler.Resume: coroutines are those that `spawn` makes, and only the loop resumes them; what they compute is not modelled, only the calls they make.
- Scheduler.Scheduler.EventLoop: a script is finite, so that a run that never ends is known by its prefixes; waiting for sockets is one answer of the script, logging is left out.
- Timers.TimerQueue.Insert: the weak keys of the index, and with them garbage collection, are left out; clocks are real numbers, and timer arguments integers.
- Wrap.Wrapt: with margin 0, requires a text without characters of the class Char, because the source does not move past one and never ends; the wrap-around of `margin + 1` at the largest machine word is left out.
- Text.CharsMatch: a character is looked up by ranges rather than by binary search of the table.
- Signals.Signals.Perform: each of the calls that change handlers is one step, so that signals arrive before or after it, not inside; in the source one that arrives between the two statements of `caught` is taken back unreported.
- Signals.Signals.Backend: signal masks, `siginfo`, one-shot handlers and Lua errors raised by a handler are left out.
- ZipWrite.Sink.WriteFlags: the flag for strong encryption is not printed, as the source tests a field of another name.
- ZipWrite.Sink.UnixToMs: civil times rather than seconds since the epoch; time zones and the operating system's date functions are left out.
- ZipWrite.PrintExtras: values are in range, and only a language extension is a table; the source fails with a Lua error on others. Mere bytes under the id of the language extension are not written, as in the source.
- ZipRead.Source.ReadDirs: the text that stands for an extra field of an entry is modelled as its size.
- Version levels are in tenths, and positions and lengths are mathematical integers below 2^32, rather than floating-point numbers.
- Ios.Ios.ReadLine: the stream ends without a transport error, and nothing more comes once its end has been noted; `*n`, `*a`, `*L`, `*h`, `*b`, reading without a format and reading again after an error are left out.
- Ios.Ios.Drain: an exhausted script counts as an error; handlers that note the end of the stream while a drain waits are left out.
- Ios.Ios.Write: requires a buffer size above zero unless nothing is to be buffered, because with none the loop of full buffering never ends.
- Base64.Decode: the alphabet is searched as 64 entries, where the source's `strchr` may run on past them; the text of errors is left out.
- The data descriptor and archive records of the ZIP modules, `metaphone`, the string distances, and the wrappers of system calls and foreign libraries are not part of this model.
