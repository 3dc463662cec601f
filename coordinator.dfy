/** The coordinator (main in BGenerals.go) without the command line, the random traitor
    choice and the console: check the configuration, start one lieutenant per ID with the
    commander's (possibly falsified) order, and read each lieutenant's decision off the log
    it hands back. */
module Coordinator {
  import opened Wrappers
  import opened Codec
  import opened Relay
  import opened Vote

  datatype ConfigError = RecurseTooLarge

  /** Lines 200-204: the order a traitorous commander sends instead of `commOrder`. */
  function CounterOrder(commOrder: string): (r: string)
    ensures r == "A" || r == "R"
    ensures commOrder == "A" <==> r == "R"
    ensures r != commOrder
  {
    if commOrder == "A" then "R" else "A"
  }

  /** Lines 206-222: the message lieutenant j is started with, "<order> 0". */
  function SeedMessage(commOrder: string, commTraitor: bool, j: nat): (r: string)
    ensures |r| >= 2 && r[|r| - 2..] == " 0"
    ensures r[..|r| - 2] == commOrder || r[..|r| - 2] == CounterOrder(commOrder)
    ensures r[..|r| - 2] == commOrder <==> !(commTraitor && j % 2 == 0)
  {
    (if commTraitor && j % 2 == 0 then CounterOrder(commOrder) else commOrder) + " " + Itoa(0)
  }

  /** A seed carries the path [0], and the commander's order except that a traitorous
      commander gives even lieutenants the opposite one: the same rule as for a relay. */
  lemma SeedDecodes(o: Order, commTraitor: bool, j: nat)
    ensures Decode(SeedMessage([OrderChar(o)], commTraitor, j)) == Success(Msg(OrderSeen(o, commTraitor, j), [0]))
  {
    var s := SeedMessage([OrderChar(o)], commTraitor, j);
    var m := Msg(OrderSeen(o, commTraitor, j), [0]);
    assert [0][..0] == [];
    assert s == Encode(m);
    MsgRoundTrip(m);
  }

  /** Every seed is deliverable to its lieutenant. */
  lemma SeedDeliverable(o: Order, commTraitor: bool, j: nat, n: nat)
    requires 1 <= j < n
    ensures Deliverable(SeedMessage([OrderChar(o)], commTraitor, j), j, n)
  {
    SeedDecodes(o, commTraitor, j);
  }

  /** Lines 179-182 and 206-222: the run is refused when recurse >= numGenerals - 1;
      otherwise lieutenant j (1 <= j < numGenerals) gets the seed at index j - 1. */
  function Seeds(recurse: int, numGenerals: int, commOrder: string, commTraitor: bool): (r: Result<seq<string>, ConfigError>)
    ensures r.Failure? <==> recurse >= numGenerals - 1
    ensures r.Success? ==> |r.value| == if numGenerals < 1 then 0 else numGenerals - 1
    ensures r.Success? ==> forall j :: 1 <= j < numGenerals ==> r.value[j - 1] == SeedMessage(commOrder, commTraitor, j)
  {
    if recurse >= numGenerals - 1 then Failure(RecurseTooLarge)
    else Success(seq(if numGenerals < 1 then 0 else numGenerals - 1, (k: nat) => SeedMessage(commOrder, commTraitor, k + 1)))
  }

  /** Lines 179-223: check the configuration and start lieutenants 1 .. numGenerals - 1
      with their seeds; `traitors[j - 1]` replaces the random choice for lieutenant j. */
  method Start(recurse: int, numGenerals: int, commOrder: string, commTraitor: bool, traitors: seq<bool>)
    returns (res: Result<seq<Lieutenant>, ConfigError>)
    requires 0 <= recurse && numGenerals <= 10
    requires |traitors| >= numGenerals - 1
    ensures res.Failure? <==> recurse >= numGenerals - 1
    ensures res.Success? ==> |res.value| == numGenerals - 1
    ensures res.Success? ==> forall k :: 0 <= k < |res.value| ==>
              var l := res.value[k];
              && fresh(l) && l.Valid() && l.received == [l.seed]
              && l.id == k + 1 && l.seed == SeedMessage(commOrder, commTraitor, k + 1)
              && l.traitor == traitors[k] && l.numGenerals == numGenerals && l.recurse == recurse
  {
    var seeds := Seeds(recurse, numGenerals, commOrder, commTraitor);
    if seeds.Failure? {
      return Failure(seeds.error);
    }
    var lieutenants: seq<Lieutenant> := [];
    var j := 1;
    while j < numGenerals
      invariant 1 <= j <= numGenerals
      invariant |lieutenants| == j - 1
      invariant forall k :: 0 <= k < |lieutenants| ==>
                  var l := lieutenants[k];
                  && fresh(l) && l.Valid() && l.received == [l.seed]
                  && l.id == k + 1 && l.seed == SeedMessage(commOrder, commTraitor, k + 1)
                  && l.traitor == traitors[k] && l.numGenerals == numGenerals && l.recurse == recurse
    {
      var l := new Lieutenant(j, seeds.value[j - 1], traitors[j - 1], numGenerals, recurse);
      lieutenants := lieutenants + [l];
      j := j + 1;
    }
    return Success(lieutenants);
  }

  /** Line 227: one lieutenant's report, read off the log it handed back: the ID it
      appended last, and the vote of its first entry over the whole log. */
  method Decide(final: seq<string>, recurse: nat) returns (who: string, vote: char)
    requires |final| >= 1 && |final[0]| >= 2
    ensures who == final[|final| - 1]
    ensures vote == GetVote(final[0], final, recurse)
  {
    who := final[|final| - 1];
    vote := ComputeVote(final[0], final, recurse);
  }

  /** The ID appended at line 78 does not take part in the vote: the decision is the vote
      of the seed over what the lieutenant received. */
  lemma DecisionIgnoresId(received: seq<string>, id: nat, recurse: nat)
    requires |received| >= 1 && |received[0]| >= 2 && id < 10
    ensures var final := received + [Itoa(id)];
            GetVote(final[0], final, recurse) == GetVote(received[0], received, recurse)
  {
    VoteIgnoresShortEntry(received[0], received, Itoa(id), recurse);
  }

  /** Agreement without traitors: when the lieutenant's seed and every message it received
      carry the commander's order o (as every loyal sender keeps it, see OutgoingDecodes),
      its decision is o, whatever the depth bound and the arrival order. */
  lemma LoyalRunDecidesOrder(o: Order, received: seq<string>, id: nat, recurse: nat)
    requires id < 10
    requires |received| >= 1 && received[0] == SeedMessage([OrderChar(o)], false, id)
    requires forall e :: e in received ==> |e| >= 1 && e[0] == OrderChar(o)
    ensures var final := received + [Itoa(id)];
            GetVote(final[0], final, recurse) == OrderChar(o)
  {
    var x := OrderChar(o);
    DecisionIgnoresId(received, id, recurse);
    forall e | e in received && Extends(e, received[0])
      ensures e[0] == x
    {
    }
    UnanimousVote(received[0], received, recurse, x);
  }
}
