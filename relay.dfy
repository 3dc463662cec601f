/** The relay step of a lieutenant (the body of `general` in BGenerals.go, without the
    channels and the quiescence timer): seed the log, broadcast the commander's message,
    and on every received message log it and relay it to the lieutenants not yet on its
    path while the path is shorter than the recursion bound plus one. A traitor flips the
    order of what it sends to even-numbered lieutenants. */
module Relay {
  import opened Wrappers
  import opened Codec

  /** strings.Replace(s, from, to, 1) for one-character strings: only the first occurrence
      of `from` is replaced. */
  function ReplaceFirst(s: string, from: char, to: char): (r: string)
    ensures |r| == |s|
    ensures forall i :: 0 <= i < |s| ==> r[i] == if s[i] == from && from !in s[..i] then to else s[i]
    ensures from != to ==> (r == s <==> from !in s)
  {
    if s == [] then []
    else if s[0] == from then
      assert forall i :: 1 <= i < |s| ==> s[..i][0] == from;
      [to] + s[1..]
    else
      var rest := ReplaceFirst(s[1..], from, to);
      PrefixParts(s, from);
      [s[0]] + rest
  }

  lemma PrefixParts(s: string, c: char)
    requires s != [] && s[0] != c
    ensures forall i :: 1 <= i <= |s| ==> (c in s[..i] <==> c in s[1..][..i - 1])
  {
    forall i | 1 <= i <= |s|
      ensures c in s[..i] <==> c in s[1..][..i - 1]
    {
      assert s[..i] == [s[0]] + s[1..][..i - 1];
    }
  }

  /** The traitor's lie: the first 'A' becomes 'R' if there is one, otherwise the first 'R'
      becomes 'A'. */
  function Corrupt(m: string): (r: string)
    ensures |r| == |m|
    ensures r == m <==> 'A' !in m && 'R' !in m
    ensures forall i :: 0 <= i < |m| && r[i] != m[i] ==>
              (m[i] == 'A' && r[i] == 'R') || ('A' !in m && m[i] == 'R' && r[i] == 'A')
    ensures forall i, j :: 0 <= i < j < |m| && r[i] != m[i] ==> r[j] == m[j]
  {
    if 'A' in m then ReplaceFirst(m, 'A', 'R') else ReplaceFirst(m, 'R', 'A')
  }

  /** On a well-formed message the lie swaps the order character exactly once and leaves
      the separator and the hop digits alone. */
  lemma CorruptFlips(m: Msg)
    ensures Corrupt(Encode(m)) == Encode(Msg(Opposite(m.order), m.path))
  {
    var s := Encode(m);
    var t := Encode(Msg(Opposite(m.order), m.path));
    assert forall i :: 2 <= i < |s| ==> s[i] == EncodePath(m.path)[i - 2];
    assert forall i :: 1 <= i < |s| ==> s[i] != 'A' && s[i] != 'R';
    if m.order == Affirm {
      assert s[..0] == [];
    } else {
      assert 'A' !in s by {
        forall i | 0 <= i < |s| ensures s[i] != 'A' {}
      }
      assert s[..0] == [];
    }
    assert forall i :: 1 <= i < |s| ==> Corrupt(s)[i] == s[i] == t[i];
    assert Corrupt(s) == t;
  }

  /** What the lieutenant `sender` puts on the channel of lieutenant `to` for the message
      `m` (BGenerals.go lines 41-48 and 64-71): the message itself, or its lie when the
      sender is a traitor and `to` is even, followed by Itoa of the sender's ID. */
  function Outgoing(m: string, sender: nat, traitor: bool, to: nat): (r: string)
    ensures |r| == |m| + |Itoa(sender)| && r[|m|..] == Itoa(sender)
    ensures r[..|m|] == m <==> !traitor || to % 2 != 0 || ('A' !in m && 'R' !in m)
  {
    (if !traitor || to % 2 != 0 then m else Corrupt(m)) + Itoa(sender)
  }

  /** The order a recipient sees: flipped exactly when the sender lies to it. */
  function OrderSeen(o: Order, traitor: bool, to: nat): Order {
    if traitor && to % 2 == 0 then Opposite(o) else o
  }

  /** An outgoing message decodes to the incoming path with the sender appended, and its
      order differs from the incoming one exactly when the sender is a traitor and the
      recipient is even. */
  lemma OutgoingDecodes(s: string, m: Msg, sender: nat, traitor: bool, to: nat)
    requires Decode(s) == Success(m)
    requires sender < 10
    ensures Decode(Outgoing(s, sender, traitor, to)) == Success(Msg(OrderSeen(m.order, traitor, to), m.path + [sender]))
  {
    MsgDecodeEncode(s, m);
    var o := OrderSeen(m.order, traitor, to);
    if traitor && to % 2 == 0 {
      CorruptFlips(m);
    }
    assert (if !traitor || to % 2 != 0 then s else Corrupt(s)) == Encode(Msg(o, m.path));
    AppendHop(Msg(o, m.path), sender);
    MsgRoundTrip(Msg(o, m.path + [sender]));
  }

  /** Appending Itoa of the sender to a message string appends the sender to its path. */
  lemma AppendHop(m: Msg, sender: nat)
    ensures Encode(m) + Itoa(sender) == Encode(Msg(m.order, m.path + [sender]))
  {
    var p := m.path + [sender];
    assert p[..|p| - 1] == m.path;
    assert EncodePath(p) == EncodePath(m.path) + Itoa(sender);
  }

  datatype Send = Send(to: nat, msg: string)

  function Recipients(sends: seq<Send>): (r: seq<nat>)
    ensures |r| == |sends| && forall k :: 0 <= k < |sends| ==> r[k] == sends[k].to
  {
    if sends == [] then [] else Recipients(sends[..|sends| - 1]) + [sends[|sends| - 1].to]
  }

  /** Each send goes to a lieutenant of [1, n) other than the sender and off `onPath`, and
      carries Outgoing of `m` for that recipient. */
  ghost predicate SendsSound(sends: seq<Send>, m: string, onPath: seq<nat>, self: nat, traitor: bool, n: nat) {
    forall k :: 0 <= k < |sends| ==>
      && 1 <= sends[k].to < n && sends[k].to != self && sends[k].to !in onPath
      && sends[k].msg == Outgoing(m, self, traitor, sends[k].to)
  }

  /** The recipients come in strictly increasing order (so none gets the message twice). */
  ghost predicate SendsAscending(sends: seq<Send>) {
    forall k, l :: 0 <= k < l < |sends| ==> sends[k].to < sends[l].to
  }

  /** Every lieutenant of [1, n) other than the sender and off `onPath` is sent to. */
  ghost predicate SendsComplete(sends: seq<Send>, onPath: seq<nat>, self: nat, n: nat) {
    forall j :: 1 <= j < n && j != self && j !in onPath ==> j in Recipients(sends)
  }

  /** The sends of one loop over the lieutenants (lines 39-51 and 62-74): one to each j in
      [1, n) that is not the sender and not on `onPath`, in increasing j, each carrying
      Outgoing of `m`. */
  ghost predicate FanOut(sends: seq<Send>, m: string, onPath: seq<nat>, self: nat, traitor: bool, n: nat) {
    && SendsSound(sends, m, onPath, self, traitor, n)
    && SendsAscending(sends)
    && SendsComplete(sends, onPath, self, n)
  }

  /** A turn of the loop over the lieutenants that sends nothing extends the fan-out to
      [1, j + 1) when j is the sender or on the path. */
  lemma FanOutSkip(sends: seq<Send>, m: string, onPath: seq<nat>, self: nat, traitor: bool, j: nat)
    requires j == self || j in onPath
    requires FanOut(sends, m, onPath, self, traitor, j)
    ensures FanOut(sends, m, onPath, self, traitor, j + 1)
  {
  }

  /** A turn of the loop over the lieutenants that sends to j extends the fan-out to
      [1, j + 1). */
  lemma FanOutAdd(sends: seq<Send>, m: string, onPath: seq<nat>, self: nat, traitor: bool, j: nat, out: string)
    requires 1 <= j && j != self && j !in onPath
    requires out == Outgoing(m, self, traitor, j)
    requires FanOut(sends, m, onPath, self, traitor, j)
    requires forall k :: 0 <= k < |sends| ==> sends[k].to < j
    ensures FanOut(sends + [Send(j, out)], m, onPath, self, traitor, j + 1)
  {
    var next := sends + [Send(j, out)];
    assert forall k :: 0 <= k < |sends| ==> next[k] == sends[k];
    assert SendsSound(next, m, onPath, self, traitor, j + 1);
    assert SendsAscending(next);
    assert next[..|next| - 1] == sends;
    var rs := Recipients(sends);
    assert Recipients(next) == rs + [j];
    assert forall i :: i in rs ==> i in Recipients(next);
  }

  /** Each lieutenant a fan-out must reach gets exactly one message, Outgoing of `m`. */
  lemma FanOutReaches(sends: seq<Send>, m: string, onPath: seq<nat>, self: nat, traitor: bool, n: nat, to: nat)
    requires FanOut(sends, m, onPath, self, traitor, n)
    requires 1 <= to < n && to != self && to !in onPath
    ensures exists k :: 0 <= k < |sends| && sends[k] == Send(to, Outgoing(m, self, traitor, to))
    ensures forall k, l :: 0 <= k < l < |sends| ==> sends[k].to != to || sends[l].to != to
  {
    assert to in Recipients(sends);
    var k :| 0 <= k < |sends| && Recipients(sends)[k] == to;
    assert sends[k] == Send(to, Outgoing(m, self, traitor, to));
  }

  predicate NoRepeat(p: seq<nat>) {
    forall i, j :: 0 <= i < j < |p| ==> p[i] != p[j]
  }

  /** A path as the protocol builds it for a message on its way to lieutenant `to`: it
      starts at the commander, then visits lieutenants of [1, n) without repetition, and
      `to` is not on it yet. */
  ghost predicate GoodPath(p: seq<nat>, to: nat, n: nat) {
    && |p| >= 1 && p[0] == 0
    && (forall i :: 1 <= i < |p| ==> 1 <= p[i] < n)
    && NoRepeat(p)
    && 1 <= to < n && to !in p
  }

  ghost predicate Deliverable(s: string, to: nat, n: nat) {
    Decode(s).Success? && GoodPath(Decode(s).value.path, to, n)
  }

  /** Relaying a deliverable message yields deliverable messages whose path is one hop
      longer; so no path ever repeats an ID and no recipient is already on its path. */
  lemma RelayKeepsPathsGood(sends: seq<Send>, s: string, self: nat, traitor: bool, n: nat)
    requires 1 <= self < n <= 10
    requires Deliverable(s, self, n)
    requires FanOut(sends, s, Decode(s).value.path, self, traitor, n)
    ensures forall k :: 0 <= k < |sends| ==>
              && Decode(sends[k].msg) == Success(Msg(OrderSeen(Decode(s).value.order, traitor, sends[k].to),
                                                     Decode(s).value.path + [self]))
              && Deliverable(sends[k].msg, sends[k].to, n)
  {
    var m := Decode(s).value;
    forall k | 0 <= k < |sends|
      ensures Decode(sends[k].msg) == Success(Msg(OrderSeen(m.order, traitor, sends[k].to), m.path + [self]))
      ensures Deliverable(sends[k].msg, sends[k].to, n)
    {
      OutgoingDecodes(s, m, self, traitor, sends[k].to);
      var p := m.path + [self];
      assert forall i :: 0 <= i < |m.path| ==> p[i] == m.path[i];
      assert GoodPath(p, sends[k].to, n);
    }
  }

  /** The initial broadcast of a seed "<o> 0" reaches every other lieutenant with the path
      [0, self], so it is deliverable too. */
  lemma BroadcastKeepsPathsGood(sends: seq<Send>, s: string, o: Order, self: nat, traitor: bool, n: nat)
    requires 1 <= self < n <= 10
    requires Decode(s) == Success(Msg(o, [0]))
    requires FanOut(sends, s, [], self, traitor, n)
    ensures forall k :: 0 <= k < |sends| ==>
              && Decode(sends[k].msg) == Success(Msg(OrderSeen(o, traitor, sends[k].to), [0, self]))
              && Deliverable(sends[k].msg, sends[k].to, n)
  {
    forall k | 0 <= k < |sends|
      ensures Decode(sends[k].msg) == Success(Msg(OrderSeen(o, traitor, sends[k].to), [0, self]))
      ensures Deliverable(sends[k].msg, sends[k].to, n)
    {
      OutgoingDecodes(s, Msg(o, [0]), self, traitor, sends[k].to);
      assert [0] + [self] == [0, self];
    }
  }

  /** One lieutenant: its fixed ID, role and configuration, the commander message it was
      started with, and the log of everything it received. */
  class Lieutenant {
    const id: nat
    const seed: string
    const traitor: bool
    const numGenerals: nat
    const recurse: nat
    var received: seq<string>

    ghost predicate Valid()
      reads this
    {
      1 <= id < numGenerals <= 10 && |received| >= 1 && received[0] == seed
    }

    /** Lines 36-37: the log starts with the commander message. */
    constructor (id: nat, seed: string, traitor: bool, numGenerals: nat, recurse: nat)
      requires 1 <= id < numGenerals <= 10
      ensures Valid()
      ensures this.id == id && this.seed == seed && this.traitor == traitor
      ensures this.numGenerals == numGenerals && this.recurse == recurse
      ensures received == [seed]
    {
      this.id := id;
      this.seed := seed;
      this.traitor := traitor;
      this.numGenerals := numGenerals;
      this.recurse := recurse;
      received := [seed];
    }

    /** Lines 39-51: the commander message goes to every other lieutenant, with no path
        and no recursion-bound check. */
    method Broadcast() returns (sends: seq<Send>)
      requires Valid()
      ensures FanOut(sends, seed, [], id, traitor, numGenerals)
    {
      sends := [];
      var i := 1;
      while i < numGenerals
        invariant 1 <= i <= numGenerals
        invariant FanOut(sends, seed, [], id, traitor, i)
        invariant forall k :: 0 <= k < |sends| ==> sends[k].to < i
      {
        if i != id {
          var out := Outgoing(seed, id, traitor, i);
          FanOutAdd(sends, seed, [], id, traitor, i, out);
          sends := sends + [Send(i, out)];
        } else {
          FanOutSkip(sends, seed, [], id, traitor, i);
        }
        i := i + 1;
      }
    }

    /** Lines 61-74: relay a received message whose decoded path is `path` to every
        lieutenant not on the path and not this one, but only while the path is shorter
        than recurse + 1. */
    method Relay(m: string, path: seq<nat>) returns (sends: seq<Send>)
      requires Valid()
      ensures |path| >= recurse + 1 ==> sends == []
      ensures |path| < recurse + 1 ==> FanOut(sends, m, path, id, traitor, numGenerals)
    {
      sends := [];
      if |path| < recurse + 1 {
        var j := 1;
        while j < numGenerals
          invariant 1 <= j <= numGenerals
          invariant FanOut(sends, m, path, id, traitor, j)
          invariant forall k :: 0 <= k < |sends| ==> sends[k].to < j
        {
          var onPath := Find(path, j);
          if !onPath && j != id {
            var out := Outgoing(m, id, traitor, j);
            FanOutAdd(sends, m, path, id, traitor, j, out);
            sends := sends + [Send(j, out)];
          } else {
            FanOutSkip(sends, m, path, id, traitor, j);
          }
          j := j + 1;
        }
      }
    }

    /** Lines 57-74 for one message from the channel: log it, decode its hop digits
        (a fatal error if they are not digits) and relay it. A deliverable message is only
        ever relayed as deliverable messages whose path has at most recurse + 1 hops. */
    method Receive(m: string) returns (res: Result<seq<Send>, DecodeError>)
      requires Valid()
      requires |m| >= 2
      modifies this
      ensures Valid()
      ensures received == old(received) + [m]
      ensures res.Failure? <==> DecodePath(m[2..]).Failure?
      ensures res.Success? ==>
                var path := DecodePath(m[2..]).value;
                && (|path| >= recurse + 1 ==> res.value == [])
                && (|path| < recurse + 1 ==> FanOut(res.value, m, path, id, traitor, numGenerals))
      ensures res.Success? && Deliverable(m, id, numGenerals) ==>
                forall k :: 0 <= k < |res.value| ==>
                  && Deliverable(res.value[k].msg, res.value[k].to, numGenerals)
                  && |Decode(res.value[k].msg).value.path| <= recurse + 1
    {
      received := received + [m];
      var decoded := Transpose(m[2..]);
      if decoded.Failure? {
        return Failure(decoded.error);
      }
      var sends := Relay(m, decoded.value);
      if Deliverable(m, id, numGenerals) && |decoded.value| < recurse + 1 {
        RelayKeepsPathsGood(sends, m, id, traitor, numGenerals);
      }
      return Success(sends);
    }

    /** Line 78: the received log handed over for the vote, with the ID appended. */
    method Report() returns (final: seq<string>)
      ensures final == received + [Itoa(id)]
    {
      final := received + [Itoa(id)];
    }
  }
}
