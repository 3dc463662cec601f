/** OM(1) end to end. With recurse = 1 every lieutenant broadcasts its seed and relays
    nothing, because a broadcast already carries recurse + 1 hops. A lieutenant's log is
    then its seed and one broadcast from every other lieutenant, in whatever order they
    arrived, and its decision is the majority of its own seed's order and the orders those
    broadcasts carry. Two properties of the algorithm follow for this implementation: with
    loyal lieutenants all decide alike even under a traitorous commander, and under a loyal
    commander each lieutenant obeys while traitors are fewer than half of the lieutenants. */
module OneRound {
  import opened Wrappers
  import opened Codec
  import opened Relay
  import opened Vote
  import opened Coordinator

  lemma SeedChars(o: Order, commTraitor: bool, k: nat)
    ensures SeedMessage([OrderChar(o)], commTraitor, k) == Encode(Msg(OrderSeen(o, commTraitor, k), [0]))
    ensures SeedMessage([OrderChar(o)], commTraitor, k) == [OrderChar(OrderSeen(o, commTraitor, k)), ' ', '0']
  {
    assert [0][..0] == [];
  }

  /** What lieutenant k's initial broadcast (lines 39-51) puts on lieutenant i's channel;
      `traitors[k - 1]` is lieutenant k's role. */
  function Delivered(o: Order, commTraitor: bool, traitors: seq<bool>, k: nat, i: nat): string
    requires 1 <= k <= |traitors|
  {
    Outgoing(SeedMessage([OrderChar(o)], commTraitor, k), k, traitors[k - 1], i)
  }

  /** The order lieutenant i reads in lieutenant k's broadcast: the commander's lie towards
      k, then k's own lie towards i. */
  function DeliveredOrder(o: Order, commTraitor: bool, traitors: seq<bool>, k: nat, i: nat): Order
    requires 1 <= k <= |traitors|
  {
    OrderSeen(OrderSeen(o, commTraitor, k), traitors[k - 1], i)
  }

  /** A broadcast of the first round: "<order> 0<sender>". */
  predicate FirstHop(x: string) {
    |x| == 4 && (x[0] == 'A' || x[0] == 'R') && x[1] == ' ' && x[2] == '0' && IsDigit(x[3])
  }

  lemma DeliveredChars(o: Order, commTraitor: bool, traitors: seq<bool>, k: nat, i: nat)
    requires 1 <= k <= |traitors| < 10
    ensures var x := Delivered(o, commTraitor, traitors, k, i);
            FirstHop(x) && x[0] == OrderChar(DeliveredOrder(o, commTraitor, traitors, k, i)) && x[3] == DigitChar(k)
  {
    var seen := OrderSeen(o, commTraitor, k);
    SeedChars(o, commTraitor, k);
    CorruptFlips(Msg(seen, [0]));
    assert Itoa(k) == [DigitChar(k)];
  }

  /** Lieutenant k's Broadcast, under the contract Lieutenant.Broadcast proves, sends
      lieutenant i exactly one message, and that message is Delivered. */
  lemma BroadcastDelivers(o: Order, commTraitor: bool, traitors: seq<bool>, k: nat, i: nat, sends: seq<Send>)
    requires 1 <= k <= |traitors| && 1 <= i <= |traitors| && i != k
    requires FanOut(sends, SeedMessage([OrderChar(o)], commTraitor, k), [], k, traitors[k - 1], |traitors| + 1)
    ensures exists l :: 0 <= l < |sends| && sends[l] == Send(i, Delivered(o, commTraitor, traitors, k, i))
    ensures forall l, l' :: 0 <= l < l' < |sends| ==> sends[l].to != i || sends[l'].to != i
  {
    FanOutReaches(sends, SeedMessage([OrderChar(o)], commTraitor, k), [], k, traitors[k - 1], |traitors| + 1, i);
  }

  /** The broadcasts lieutenant i receives from lieutenants 1 .. k - 1 other than itself,
      in ID order. */
  function Inbox(o: Order, commTraitor: bool, traitors: seq<bool>, i: nat, k: nat): (r: seq<string>)
    requires k <= |traitors| + 1
  {
    if k <= 1 then []
    else Inbox(o, commTraitor, traitors, i, k - 1) + (if k - 1 == i then [] else [Delivered(o, commTraitor, traitors, k - 1, i)])
  }

  /** The inbox holds one first-round broadcast per other lieutenant. */
  lemma {:induction false} InboxShape(o: Order, commTraitor: bool, traitors: seq<bool>, i: nat, k: nat)
    requires k <= |traitors| + 1 <= 10 && 1 <= i
    ensures var r := Inbox(o, commTraitor, traitors, i, k);
            && |r| == (if k <= 1 then 0 else if i < k then k - 2 else k - 1)
            && forall j :: 0 <= j < |r| ==> FirstHop(r[j])
  {
    if k > 1 {
      InboxShape(o, commTraitor, traitors, i, k - 1);
      if k - 1 != i {
        DeliveredChars(o, commTraitor, traitors, k - 1, i);
      }
    }
  }

  /** With recurse = 1 a first-round broadcast is not relayed by Receive: its path already
      has recurse + 1 hops. */
  lemma InboxIsNotRelayed(o: Order, commTraitor: bool, traitors: seq<bool>, i: nat, m: string)
    requires |traitors| + 1 <= 10 && 1 <= i
    requires m in Inbox(o, commTraitor, traitors, i, |traitors| + 1)
    ensures |m| >= 2 && DecodePath(m[2..]).Success? && |DecodePath(m[2..]).value| >= 1 + 1
  {
    InboxShape(o, commTraitor, traitors, i, |traitors| + 1);
    assert IsDigit(m[2..][0]) && IsDigit(m[2..][1]);
  }

  /** The order characters of a list of messages (an empty message reads as R). */
  function FirstChars(xs: seq<string>): (r: seq<char>)
    ensures |r| == |xs| && forall j :: 0 <= j < |xs| ==> r[j] == if |xs[j]| >= 1 then xs[j][0] else 'R'
  {
    seq(|xs|, j requires 0 <= j < |xs| => if |xs[j]| >= 1 then xs[j][0] else 'R')
  }

  lemma {:induction false} DescendantsAppend(msg: string, a: seq<string>, b: seq<string>)
    requires |msg| >= 2
    ensures Descendants(msg, a + b) == Descendants(msg, a) + Descendants(msg, b)
    decreases |b|
  {
    if b == [] {
      assert a + b == a;
    } else {
      var b', x := b[..|b| - 1], b[|b| - 1];
      var ab := a + b;
      assert ab[..|ab| - 1] == a + b' && ab[|ab| - 1] == x;
      DescendantsAppend(msg, a, b');
      assert Descendants(msg, ab) == Descendants(msg, a + b') + (if Extends(x, msg) then [x] else []);
      assert Descendants(msg, b) == Descendants(msg, b') + (if Extends(x, msg) then [x] else []);
    }
  }

  lemma {:induction false} DescendantsOfAll(msg: string, xs: seq<string>)
    requires |msg| >= 2
    requires forall j :: 0 <= j < |xs| ==> Extends(xs[j], msg)
    ensures Descendants(msg, xs) == xs
  {
    if xs != [] {
      DescendantsOfAll(msg, xs[..|xs| - 1]);
      assert xs == xs[..|xs| - 1] + [xs[|xs| - 1]];
    }
  }

  /** The vote on a seed "<order> 0" over a log of the seed followed by first-round
      broadcasts, with recurse = 1. */
  lemma SeedVote(seed: string, inbox: seq<string>)
    requires |seed| == 3 && seed[2] == '0'
    requires forall j :: 0 <= j < |inbox| ==> FirstHop(inbox[j])
    ensures GetVote(seed, [seed] + inbox, 1) == Majority(seed[0], FirstChars(inbox))
  {
    var log := [seed] + inbox;
    DescendantsAppend(seed, [seed], inbox);
    assert [seed][..0] == [];
    assert Descendants(seed, [seed]) == [];
    forall j | 0 <= j < |inbox| ensures Extends(inbox[j], seed) {
      FirstHopExtends(inbox[j], seed);
    }
    DescendantsOfAll(seed, inbox);
    FirstHopVotes(seed, log, inbox);
  }

  /** A first-round broadcast lies below every seed in the relay tree. */
  lemma FirstHopExtends(x: string, seed: string)
    requires |seed| == 3 && seed[2] == '0' && FirstHop(x)
    ensures Extends(x, seed)
  {
    assert x[2..3] == seed[2..];
  }

  /** At recurse = 1 each first-round broadcast votes its own order. */
  lemma FirstHopVotes(seed: string, log: seq<string>, inbox: seq<string>)
    requires |seed| >= 2 && Descendants(seed, log) == inbox
    requires forall j :: 0 <= j < |inbox| ==> FirstHop(inbox[j])
    ensures ChildVotes(seed, log, 1) == FirstChars(inbox)
  {
  }

  /** Lieutenant i's decision under OM(1), over the log it hands back at line 78 and that
      main votes on at lines 225-227: the majority of its seed's order and the orders of
      the broadcasts it received, whatever order they arrived in. */
  lemma OneRoundDecision(o: Order, commTraitor: bool, traitors: seq<bool>, i: nat, received: seq<string>)
    requires |traitors| < 10 && 1 <= i <= |traitors|
    requires |received| >= 1 && received[0] == SeedMessage([OrderChar(o)], commTraitor, i)
    requires multiset(received) == multiset([received[0]] + Inbox(o, commTraitor, traitors, i, |traitors| + 1))
    ensures var final := received + [Itoa(i)];
            GetVote(final[0], final, 1) == Majority(OrderChar(OrderSeen(o, commTraitor, i)), FirstChars(Inbox(o, commTraitor, traitors, i, |traitors| + 1)))
  {
    var seed := received[0];
    var inbox := Inbox(o, commTraitor, traitors, i, |traitors| + 1);
    InboxShape(o, commTraitor, traitors, i, |traitors| + 1);
    SeedChars(o, commTraitor, i);
    DecisionIgnoresId(received, i, 1);
    VoteIgnoresArrivalOrder(seed, received, [seed] + inbox, 1);
    SeedVote(seed, inbox);
  }

  /** The number of 'A' seed orders among lieutenants 1 .. k - 1. */
  function SeedAffirms(o: Order, commTraitor: bool, k: nat): (n: nat)
    ensures n <= k
  {
    if k <= 1 then 0 else SeedAffirms(o, commTraitor, k - 1) + (if OrderSeen(o, commTraitor, k - 1) == Affirm then 1 else 0)
  }

  /** The ballot grows by one order per other lieutenant: the order its broadcast carries. */
  lemma BallotStep(o: Order, commTraitor: bool, traitors: seq<bool>, i: nat, k: nat)
    requires 2 <= k <= |traitors| + 1 <= 10
    ensures FirstChars(Inbox(o, commTraitor, traitors, i, k))
            == FirstChars(Inbox(o, commTraitor, traitors, i, k - 1))
               + (if k - 1 == i then [] else [OrderChar(DeliveredOrder(o, commTraitor, traitors, k - 1, i))])
  {
    if k - 1 != i {
      DeliveredChars(o, commTraitor, traitors, k - 1, i);
    }
  }

  lemma CountSnoc(c: char, s: seq<char>, x: seq<char>)
    requires |x| <= 1
    ensures Count(c, s + x) == Count(c, s) + (if x == [c] then 1 else 0)
  {
    if x != [] {
      assert (s + x)[..|s + x| - 1] == s;
    } else {
      assert s + x == s;
    }
  }

  /** With loyal lieutenants a further lieutenant other than i adds one 'A' to i's ballot
      exactly when its own seed says 'A'. */
  lemma LoyalStep(o: Order, commTraitor: bool, traitors: seq<bool>, i: nat, k: nat)
    requires 2 <= k <= |traitors| + 1 <= 10
    requires forall j :: 0 <= j < |traitors| ==> !traitors[j]
    ensures Count('A', FirstChars(Inbox(o, commTraitor, traitors, i, k)))
            == Count('A', FirstChars(Inbox(o, commTraitor, traitors, i, k - 1)))
               + (if k - 1 != i && OrderSeen(o, commTraitor, k - 1) == Affirm then 1 else 0)
  {
    BallotStep(o, commTraitor, traitors, i, k);
    var prev := FirstChars(Inbox(o, commTraitor, traitors, i, k - 1));
    var step := if k - 1 == i then [] else [OrderChar(DeliveredOrder(o, commTraitor, traitors, k - 1, i))];
    CountSnoc('A', prev, step);
    if k - 1 != i {
      assert !traitors[k - 2];
      assert DeliveredOrder(o, commTraitor, traitors, k - 1, i) == OrderSeen(o, commTraitor, k - 1);
    }
  }

  /** With loyal lieutenants, lieutenant i's ballot counts every lieutenant's seed order
      once: its own directly, every other one through its broadcast. */
  lemma {:induction false} LoyalBallot(o: Order, commTraitor: bool, traitors: seq<bool>, i: nat, k: nat)
    requires k <= |traitors| + 1 <= 10 && 1 <= i <= |traitors|
    requires forall j :: 0 <= j < |traitors| ==> !traitors[j]
    ensures Count('A', FirstChars(Inbox(o, commTraitor, traitors, i, k)))
              + (if i < k && OrderSeen(o, commTraitor, i) == Affirm then 1 else 0)
            == SeedAffirms(o, commTraitor, k)
  {
    if k > 1 {
      LoyalBallot(o, commTraitor, traitors, i, k - 1);
      LoyalStep(o, commTraitor, traitors, i, k);
      var own := OrderSeen(o, commTraitor, i) == Affirm;
      var added := OrderSeen(o, commTraitor, k - 1) == Affirm;
      var before := Count('A', FirstChars(Inbox(o, commTraitor, traitors, i, k - 1)));
      var after := Count('A', FirstChars(Inbox(o, commTraitor, traitors, i, k)));
      assert after == before + (if k - 1 != i && added then 1 else 0);
      assert before + (if i < k - 1 && own then 1 else 0) == SeedAffirms(o, commTraitor, k - 1);
      assert SeedAffirms(o, commTraitor, k) == SeedAffirms(o, commTraitor, k - 1) + (if added then 1 else 0);
    }
  }

  /** OM(1) agreement: when no lieutenant is a traitor, any two lieutenants decide the same
      order, even when the commander is a traitor and sends different orders. */
  lemma OneRoundAgreement(o: Order, commTraitor: bool, traitors: seq<bool>, i: nat, j: nat,
                          receivedI: seq<string>, receivedJ: seq<string>)
    requires |traitors| < 10 && 1 <= i <= |traitors| && 1 <= j <= |traitors|
    requires forall k :: 0 <= k < |traitors| ==> !traitors[k]
    requires |receivedI| >= 1 && receivedI[0] == SeedMessage([OrderChar(o)], commTraitor, i)
    requires multiset(receivedI) == multiset([receivedI[0]] + Inbox(o, commTraitor, traitors, i, |traitors| + 1))
    requires |receivedJ| >= 1 && receivedJ[0] == SeedMessage([OrderChar(o)], commTraitor, j)
    requires multiset(receivedJ) == multiset([receivedJ[0]] + Inbox(o, commTraitor, traitors, j, |traitors| + 1))
    ensures var finalI, finalJ := receivedI + [Itoa(i)], receivedJ + [Itoa(j)];
            GetVote(finalI[0], finalI, 1) == GetVote(finalJ[0], finalJ, 1)
  {
    var n := |traitors| + 1;
    OneRoundDecision(o, commTraitor, traitors, i, receivedI);
    OneRoundDecision(o, commTraitor, traitors, j, receivedJ);
    LoyalBallot(o, commTraitor, traitors, i, n);
    LoyalBallot(o, commTraitor, traitors, j, n);
    InboxShape(o, commTraitor, traitors, i, n);
    InboxShape(o, commTraitor, traitors, j, n);
    SameTally(OrderChar(OrderSeen(o, commTraitor, i)), FirstChars(Inbox(o, commTraitor, traitors, i, n)),
              OrderChar(OrderSeen(o, commTraitor, j)), FirstChars(Inbox(o, commTraitor, traitors, j, n)));
  }

  /** Two ballots with as many votes and as many of them 'A' elect the same order. */
  lemma SameTally(own1: char, votes1: seq<char>, own2: char, votes2: seq<char>)
    requires |votes1| == |votes2|
    requires (if own1 == 'A' then 1 else 0) + Count('A', votes1) == (if own2 == 'A' then 1 else 0) + Count('A', votes2)
    ensures Majority(own1, votes1) == Majority(own2, votes2)
  {
  }

  /** The number of traitors among the given lieutenants. */
  function TraitorCount(ts: seq<bool>): (t: nat)
    ensures t <= |ts|
  {
    if ts == [] then 0 else TraitorCount(ts[..|ts| - 1]) + (if ts[|ts| - 1] then 1 else 0)
  }

  lemma {:induction false} CountBoth(s: seq<char>)
    requires forall j :: 0 <= j < |s| ==> s[j] == 'A' || s[j] == 'R'
    ensures Count('A', s) + Count('R', s) == |s|
  {
    if s != [] {
      CountBoth(s[..|s| - 1]);
    }
  }

  /** Under a loyal commander a further lieutenant's broadcast adds an opposite vote to
      i's ballot only when that lieutenant is a traitor. */
  lemma LoyalCommanderStep(o: Order, traitors: seq<bool>, i: nat, k: nat)
    requires 2 <= k <= |traitors| + 1 <= 10
    ensures Count(OrderChar(Opposite(o)), FirstChars(Inbox(o, false, traitors, i, k)))
            <= Count(OrderChar(Opposite(o)), FirstChars(Inbox(o, false, traitors, i, k - 1))) + (if traitors[k - 2] then 1 else 0)
  {
    BallotStep(o, false, traitors, i, k);
    CountSnoc(OrderChar(Opposite(o)), FirstChars(Inbox(o, false, traitors, i, k - 1)),
              if k - 1 == i then [] else [OrderChar(DeliveredOrder(o, false, traitors, k - 1, i))]);
  }

  /** Under a loyal commander only a traitor's broadcast can carry the opposite order. */
  lemma {:induction false} LoyalCommanderBallot(o: Order, traitors: seq<bool>, i: nat, k: nat)
    requires 1 <= k <= |traitors| + 1 <= 10 && 1 <= i
    ensures Count(OrderChar(Opposite(o)), FirstChars(Inbox(o, false, traitors, i, k))) <= TraitorCount(traitors[..k - 1])
  {
    if k > 1 {
      LoyalCommanderBallot(o, traitors, i, k - 1);
      LoyalCommanderStep(o, traitors, i, k);
      var ts := traitors[..k - 1];
      assert ts[..|ts| - 1] == traitors[..k - 2];
    }
  }

  /** OM(1) validity: under a loyal commander, while traitors are fewer than half of the
      lieutenants, each lieutenant decides the commander's order. */
  lemma OneRoundValidity(o: Order, traitors: seq<bool>, i: nat, received: seq<string>)
    requires |traitors| < 10 && 1 <= i <= |traitors|
    requires 2 * TraitorCount(traitors) < |traitors|
    requires |received| >= 1 && received[0] == SeedMessage([OrderChar(o)], false, i)
    requires multiset(received) == multiset([received[0]] + Inbox(o, false, traitors, i, |traitors| + 1))
    ensures var final := received + [Itoa(i)];
            GetVote(final[0], final, 1) == OrderChar(o)
  {
    var n := |traitors| + 1;
    OneRoundDecision(o, false, traitors, i, received);
    LoyalCommanderBallot(o, traitors, i, n);
    InboxShape(o, false, traitors, i, n);
    assert traitors[..n - 1] == traitors;
    var votes := FirstChars(Inbox(o, false, traitors, i, n));
    CountBoth(votes);
  }
}
