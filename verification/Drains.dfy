/** What a run of drains puts on the wire. A drain asks to send the next bytes of a stream; if it works it moves on,
    and if it fails the next drain starts over from the same place, whatever the failed one has sent. */
module Drains {
  import opened Text

  // What one send comes to: bytes taken, or an error.
  datatype Send = Sent(bytes: nat) | Error

  // How many bytes a drain was to send, how many it sent, and whether it worked.
  datatype Drained = Drained(len: nat, sent: nat, okay: bool)

  /** What a drain comes to when the socket goes by the script, and what is left of the script. A drain that finds the
      script at its end fails. */
  ghost function Sending(sends: seq<Send>, len: nat): (r: (Drained, seq<Send>))
    ensures r.0.len == len && r.0.sent <= len && (r.0.okay ==> r.0.sent == len) && |r.1| <= |sends|
    decreases |sends|
  {
    if sends == [] then (Drained(len, 0, false), [])
    else if sends[0].Error? then (Drained(len, 0, false), sends[1..])
    else if sends[0].bytes >= len then (Drained(len, len, true), sends[1..])
    else
      var (d, rest) := Sending(sends[1..], len - sends[0].bytes);
      (Drained(len, sends[0].bytes + d.sent, d.okay), rest)
  }

  /** How many bytes the script takes before its first error. */
  ghost function Reach(sends: seq<Send>): nat {
    if sends == [] || sends[0].Error? then 0 else sends[0].bytes + Reach(sends[1..])
  }

  /** A drain sends all it is to send if that much is taken before an error comes, and else what is taken; it uses no
      more of the script than that takes. */
  lemma {:induction false} SendingIs(sends: seq<Send>, len: nat)
    ensures var (d, rest) := Sending(sends, len);
            && d.sent == (if Reach(sends) < len then Reach(sends) else len)
            && (d.okay <==> sends != [] && !sends[0].Error? && len <= Reach(sends))
            && |rest| <= |sends| && rest == sends[|sends| - |rest|..]
            && (d.okay ==> forall k | 0 < k < |sends| - |rest| :: Reach(sends[..k]) < len)
            && (!d.okay ==> rest == [] || sends[|sends| - |rest| - 1].Error?)
    decreases |sends|
  {
    if sends != [] && sends[0].Sent? && sends[0].bytes < len {
      SendingIs(sends[1..], len - sends[0].bytes);
      var rest := Sending(sends, len).1;
      forall k | 0 < k < |sends| - |rest| && Sending(sends, len).0.okay ensures Reach(sends[..k]) < len {
        assert sends[..k][1..] == sends[1..][..k - 1];
      }
    }
  }

  /** What is left of the script after the drains. */
  ghost function Left(script: seq<Send>, drains: seq<Drained>): seq<Send> {
    if drains == [] then script
    else Sending(Left(script, drains[..|drains| - 1]), drains[|drains| - 1].len).1
  }

  /** The drains are what the script makes of them. */
  ghost predicate Faithful(script: seq<Send>, drains: seq<Drained>) {
    drains == [] ||
    var front, d := drains[..|drains| - 1], drains[|drains| - 1];
    Faithful(script, front) && d == Sending(Left(script, front), d.len).0
  }

  /** How far into the stream the drains have got. */
  ghost function Taken(drains: seq<Drained>): nat {
    if drains == [] then 0
    else Taken(drains[..|drains| - 1]) + if drains[|drains| - 1].okay then drains[|drains| - 1].len else 0
  }

  /** How many bytes failed drains have sent. */
  ghost function Wasted(drains: seq<Drained>): nat {
    if drains == [] then 0
    else Wasted(drains[..|drains| - 1]) + if drains[|drains| - 1].okay then 0 else drains[|drains| - 1].sent
  }

  /** Every drain was to send bytes that the stream has. */
  ghost predicate Fits(drains: seq<Drained>, size: nat) {
    drains == [] ||
    var front, d := drains[..|drains| - 1], drains[|drains| - 1];
    Fits(front, size) && Taken(front) + d.len <= size && d.sent <= d.len && (d.okay ==> d.sent == d.len)
  }

  /** What is on the wire: of each drain, the bytes it has sent of those next in the stream. */
  ghost function Out(drains: seq<Drained>, stream: seq<byte>): (r: seq<byte>)
    requires Fits(drains, |stream|)
    ensures |r| == Taken(drains) + Wasted(drains) && Taken(drains) <= |stream|
  {
    if drains == [] then []
    else
      var front, d := drains[..|drains| - 1], drains[|drains| - 1];
      Out(front, stream) + stream[Taken(front)..Taken(front) + d.sent]
  }

  lemma OneMore(script: seq<Send>, drains: seq<Drained>, d: Drained, stream: seq<byte>)
    requires Fits(drains, |stream|) && Taken(drains) + d.len <= |stream|
    requires Faithful(script, drains) && d == Sending(Left(script, drains), d.len).0
    ensures Fits(drains + [d], |stream|) && Faithful(script, drains + [d])
    ensures Taken(drains + [d]) == Taken(drains) + if d.okay then d.len else 0
    ensures Wasted(drains + [d]) == Wasted(drains) + if d.okay then 0 else d.sent
    ensures Out(drains + [d], stream) == Out(drains, stream) + stream[Taken(drains)..Taken(drains) + d.sent]
    ensures Left(script, drains + [d]) == Sending(Left(script, drains), d.len).1
  {
    hide Sending;
    assert (drains + [d])[..|drains|] == drains;
  }

  lemma {:induction false} OutGrows(drains: seq<Drained>, stream: seq<byte>, more: seq<byte>)
    requires Fits(drains, |stream|)
    ensures Fits(drains, |stream + more|) && Out(drains, stream + more) == Out(drains, stream)
  {
    if drains != [] {
      OutGrows(drains[..|drains| - 1], stream, more);
    }
  }

  lemma {:induction false} OutIsPrefix(drains: seq<Drained>, stream: seq<byte>)
    requires Fits(drains, |stream|) && Wasted(drains) == 0
    ensures Out(drains, stream) == stream[..Taken(drains)]
  {
    if drains != [] {
      OutIsPrefix(drains[..|drains| - 1], stream);
    }
  }

  lemma {:induction false} WastedByWhom(drains: seq<Drained>)
    ensures Wasted(drains) == 0 <==> forall d | d in drains :: d.okay || d.sent == 0
  {
    if drains != [] {
      var front, last := drains[..|drains| - 1], drains[|drains| - 1];
      WastedByWhom(front);
      assert drains == front + [last];
    }
  }

  /** What is sent, followed by what is still to be sent, is the stream exactly if no failed drain has sent anything. */
  lemma WholeUnlessWasted(drains: seq<Drained>, stream: seq<byte>)
    requires Fits(drains, |stream|)
    ensures Taken(drains) <= |stream|
    ensures Out(drains, stream) + stream[Taken(drains)..] == stream <==> forall d | d in drains :: d.okay || d.sent == 0
  {
    hide Fits, Taken, Wasted;
    var out := Out(drains, stream);
    var size := |out + stream[Taken(drains)..]|;
    WastedByWhom(drains);
    if Wasted(drains) == 0 {
      OutIsPrefix(drains, stream);
    } else {
      assert size == |stream| + Wasted(drains);
    }
  }

  /** What is left after some of the script has been used. */
  ghost predicate Later(script: seq<Send>, left: seq<Send>) {
    |left| <= |script| && left == script[|script| - |left|..]
  }

  /** What was used of the script has no error, and the script has not come to its end. */
  ghost predicate Smooth(script: seq<Send>, left: seq<Send>)
    requires Later(script, left)
  {
    left != [] && Error !in script[..|script| - |left|]
  }

  lemma StillLater(script: seq<Send>, mid: seq<Send>, left: seq<Send>)
    requires Later(script, mid) && Later(mid, left)
    ensures Later(script, left)
    ensures Smooth(script, left) ==> Smooth(script, mid) && Smooth(mid, left)
  {
    var n, m := |script| - |mid|, |script| - |left|;
    assert left == script[m..];
    assert script[..m] == script[..n] + mid[..m - n];
  }

  /** A drain fails only by an error, or at the end of the script. */
  lemma {:induction false} SendingUses(sends: seq<Send>, len: nat)
    ensures var (d, rest) := Sending(sends, len);
            Later(sends, rest) && (Smooth(sends, rest) ==> d.okay)
    decreases |sends|
  {
    if sends != [] && sends[0].Sent? && sends[0].bytes < len {
      SendingUses(sends[1..], len - sends[0].bytes);
      StillLater(sends, sends[1..], Sending(sends, len).1);
    }
  }

  /** With no error in what was used of the script, and some of it left, every drain has worked. */
  lemma {:induction false} AllWorked(script: seq<Send>, drains: seq<Drained>)
    requires Faithful(script, drains)
    ensures Later(script, Left(script, drains))
    ensures Smooth(script, Left(script, drains)) ==> forall d | d in drains :: d.okay
  {
    hide Sending, Later, Smooth;
    if drains == [] {
      AllLeft(script);
    } else {
      var front, last := drains[..|drains| - 1], drains[|drains| - 1];
      AllWorked(script, front);
      var mid, left := Left(script, front), Left(script, drains);
      SendingUses(mid, last.len);
      StillLater(script, mid, left);
      assert drains == front + [last];
    }
  }

  lemma AllLeft(script: seq<Send>)
    ensures Later(script, script)
  {
  }
}
