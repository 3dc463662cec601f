/** Vote aggregation (getVote in BGenerals.go). A lieutenant's log is a list of message
    strings; a log entry lies below a message in the relay tree when it is longer and its
    hop digits start with the message's hop digits. The vote of a message whose path has
    recurse + 1 hops is its own order; otherwise it is the majority of its own order and
    the votes of all entries below it, with ties going to 'R'. */
module Vote {
  import opened Wrappers
  import opened Codec

  /** Line 130: `j` is longer than `msg` and its hop digits extend those of `msg`. Only the
      hop digits are compared, not the order character or the separator. */
  predicate Extends(j: string, msg: string)
    requires |msg| >= 2
    ensures Extends(j, msg) <==> |j| > |msg| && forall k :: 2 <= k < |msg| ==> j[k] == msg[k]
  {
    |j| > |msg| && j[2..|msg|] == msg[2..]
  }

  lemma ExtendsTransitive(k: string, j: string, msg: string)
    requires |msg| >= 2 && Extends(j, msg) && Extends(k, j)
    ensures Extends(k, msg)
  {
    assert k[2..|msg|] == k[2..|j|][..|msg| - 2];
    assert j[2..|msg|] == j[2..][..|msg| - 2];
  }

  /** On well-formed messages, extending is exactly being a longer path with the shorter
      path as a prefix: the string scan of getVote walks the tree of paths. */
  lemma ExtendsIsPathPrefix(j: string, mj: Msg, msg: string, mm: Msg)
    requires Decode(j) == Success(mj) && Decode(msg) == Success(mm)
    ensures Extends(j, msg) <==> |mj.path| > |mm.path| && mj.path[..|mm.path|] == mm.path
  {
    var pj, pm := mj.path, mm.path;
    assert |j| == |pj| + 2 && |msg| == |pm| + 2;
    if |pj| > |pm| {
      var dj, dm := j[2..|msg|], msg[2..];
      assert forall i :: 0 <= i < |pm| ==> dj[i] == j[2..][i] && pj[i] == DigitValue(dj[i]);
      assert forall i :: 0 <= i < |pm| ==> pm[i] == DigitValue(dm[i]);
      if dj == dm {
        assert pj[..|pm|] == pm;
      }
      if pj[..|pm|] == pm {
        forall i | 0 <= i < |pm|
          ensures dj[i] == dm[i]
        {
          assert DigitChar(pj[i]) == dj[i] && DigitChar(pm[i]) == dm[i];
        }
        assert dj == dm;
      }
    }
  }

  /** The length of the longest entry; getVote recurses on longer and longer entries of a
      finite log, so it ends. */
  function MaxLen(log: seq<string>): (r: nat)
    ensures forall e :: e in log ==> |e| <= r
  {
    if log == [] then 0
    else
      var t := MaxLen(log[1..]);
      if |log[0]| > t then |log[0]| else t
  }

  /** The entries the loop at lines 129-133 recurses on, in log order: every entry below
      `msg`, not only its one-hop children. */
  function Descendants(msg: string, log: seq<string>): (kids: seq<string>)
    requires |msg| >= 2
    ensures forall i :: 0 <= i < |kids| ==> kids[i] in log && Extends(kids[i], msg)
    ensures forall j :: j in log && Extends(j, msg) ==> j in kids
  {
    if log == [] then []
    else
      var init, last := log[..|log| - 1], log[|log| - 1];
      assert log == init + [last];
      Descendants(msg, init) + (if Extends(last, msg) then [last] else [])
  }

  /** The number of occurrences of `c`, counted front to back as the loop at lines
      144-150 does. */
  function Count(c: char, s: seq<char>): (n: nat)
    ensures n <= |s|
  {
    if s == [] then 0 else Count(c, s[..|s| - 1]) + (if s[|s| - 1] == c then 1 else 0)
  }

  /** Lines 135-156: the message's own order and each child vote count once; 'A' wins only
      with strictly more votes than the rest, so a tie, and any vote that is not 'A',
      goes to 'R'. */
  function Majority(own: char, votes: seq<char>): (v: char)
    ensures v == 'A' || v == 'R'
    ensures v == 'A' <==> 2 * ((if own == 'A' then 1 else 0) + Count('A', votes)) > |votes| + 1
  {
    var a := (if own == 'A' then 1 else 0) + Count('A', votes);
    var r := (if own == 'A' then 0 else 1) + (|votes| - Count('A', votes));
    if a > r then 'A' else 'R'
  }

  /** getVote (lines 121-157). Its result is the order character of `msg` at the depth
      bound, and 'A' or 'R' everywhere else. */
  function GetVote(msg: string, log: seq<string>, recurse: nat): (v: char)
    requires |msg| >= 2
    ensures |msg| - 2 == recurse + 1 ==> v == msg[0]
    ensures |msg| - 2 != recurse + 1 ==> v == 'A' || v == 'R'
    decreases MaxLen(log) - |msg|, 1
  {
    if |msg| - 2 == recurse + 1 then msg[0]
    else Majority(msg[0], ChildVotes(msg, log, recurse))
  }

  /** The votes of the entries below `msg`, in log order (the `votes` slice of getVote). */
  function ChildVotes(msg: string, log: seq<string>, recurse: nat): (votes: seq<char>)
    requires |msg| >= 2
    ensures |votes| == |Descendants(msg, log)|
    decreases MaxLen(log) - |msg|, 0
  {
    var kids := Descendants(msg, log);
    seq(|kids|, k requires 0 <= k < |kids| => GetVote(kids[k], log, recurse))
  }

  /** getVote as the source runs it: a scan of the log that recurses on each entry below
      `msg` and collects the votes, then a counting loop. */
  method ComputeVote(msg: string, log: seq<string>, recurse: nat) returns (v: char)
    requires |msg| >= 2
    ensures v == GetVote(msg, log, recurse)
    decreases MaxLen(log) - |msg|
  {
    if |msg| - 2 == recurse + 1 {
      return msg[0];
    }
    var votes: seq<char> := [];
    ghost var kids: seq<string> := [];
    for i := 0 to |log|
      invariant kids == Descendants(msg, log[..i])
      invariant |votes| == |kids|
      invariant forall k :: 0 <= k < |kids| ==> votes[k] == GetVote(kids[k], log, recurse)
    {
      var j := log[i];
      DescendantsStep(msg, log, i);
      if |j| > |msg| && j[2..|msg|] == msg[2..] {
        var w := ComputeVote(j, log, recurse);
        votes := votes + [w];
        kids := kids + [j];
      }
    }
    assert log[..|log|] == log;
    assert votes == ChildVotes(msg, log, recurse);
    v := Tally(msg[0], votes);
  }

  /** One more entry of the scan adds it to the descendants exactly when it extends `msg`. */
  lemma DescendantsStep(msg: string, log: seq<string>, i: nat)
    requires |msg| >= 2 && i < |log|
    ensures Descendants(msg, log[..i + 1]) == Descendants(msg, log[..i]) + (if Extends(log[i], msg) then [log[i]] else [])
  {
    assert log[..i + 1][..i] == log[..i];
  }

  /** Lines 135-156: count the message's own order and the child votes, then pick the
      strict majority of 'A' or else 'R'. */
  method Tally(own: char, votes: seq<char>) returns (v: char)
    ensures v == Majority(own, votes)
  {
    var a, r := 0, 0;
    if own == 'A' {
      a := 1;
    } else {
      r := 1;
    }
    for i := 0 to |votes|
      invariant a == (if own == 'A' then 1 else 0) + Count('A', votes[..i])
      invariant a + r == i + 1
    {
      assert votes[..i + 1][..i] == votes[..i];
      if votes[i] == 'A' {
        a := a + 1;
      } else {
        r := r + 1;
      }
    }
    assert votes[..|votes|] == votes;
    v := if a > r then 'A' else 'R';
  }

  lemma {:induction false} CountUniform(c: char, s: seq<char>, x: char)
    requires forall i :: 0 <= i < |s| ==> s[i] == x
    ensures Count(c, s) == if c == x then |s| else 0
  {
    if s != [] {
      CountUniform(c, s[..|s| - 1], x);
    }
  }

  /** A unanimous ballot elects its order. */
  lemma MajorityUnanimous(x: char, votes: seq<char>)
    requires x == 'A' || x == 'R'
    requires forall i :: 0 <= i < |votes| ==> votes[i] == x
    ensures Majority(x, votes) == x
  {
    CountUniform('A', votes, x);
  }

  /** If `msg` and every entry below it carry the order x, the vote is x. */
  lemma {:induction false} UnanimousVote(msg: string, log: seq<string>, recurse: nat, x: char)
    requires |msg| >= 2 && (x == 'A' || x == 'R') && msg[0] == x
    requires forall j :: j in log && Extends(j, msg) ==> j[0] == x
    ensures GetVote(msg, log, recurse) == x
    decreases MaxLen(log) - |msg|
  {
    if |msg| - 2 != recurse + 1 {
      var kids := Descendants(msg, log);
      var votes := ChildVotes(msg, log, recurse);
      forall k | 0 <= k < |kids|
        ensures votes[k] == x
      {
        var c := kids[k];
        assert c in kids;
        forall j | j in log && Extends(j, c)
          ensures j[0] == x
        {
          ExtendsTransitive(j, c, msg);
        }
        UnanimousVote(c, log, recurse, x);
      }
      MajorityUnanimous(x, votes);
    }
  }

  /** An entry no longer than `msg` (such as the ID appended at line 78) never changes the
      vote of `msg`. */
  lemma {:induction false} VoteIgnoresShortEntry(msg: string, log: seq<string>, e: string, recurse: nat)
    requires |msg| >= 2 && |e| <= |msg|
    ensures GetVote(msg, log + [e], recurse) == GetVote(msg, log, recurse)
    decreases MaxLen(log) - |msg|
  {
    if |msg| - 2 != recurse + 1 {
      var log' := log + [e];
      assert log'[..|log'| - 1] == log;
      var kids := Descendants(msg, log);
      assert Descendants(msg, log') == kids;
      var votes, votes' := ChildVotes(msg, log, recurse), ChildVotes(msg, log', recurse);
      forall k | 0 <= k < |kids|
        ensures votes'[k] == votes[k]
      {
        assert kids[k] in kids;
        VoteIgnoresShortEntry(kids[k], log, e, recurse);
      }
      assert votes' == votes;
    }
  }

  lemma {:induction false} CountIsMultiplicity(c: char, s: seq<char>)
    ensures Count(c, s) == multiset(s)[c]
  {
    if s != [] {
      var init := s[..|s| - 1];
      CountIsMultiplicity(c, init);
      assert s == init + [s[|s| - 1]];
    }
  }

  /** Descendants keeps every entry below `msg` as often as the log holds it. */
  lemma {:induction false} DescendantsMultiplicity(msg: string, log: seq<string>, x: string)
    requires |msg| >= 2
    ensures multiset(Descendants(msg, log))[x] == if Extends(x, msg) then multiset(log)[x] else 0
  {
    if log != [] {
      var init, last := log[..|log| - 1], log[|log| - 1];
      DescendantsMultiplicity(msg, init, x);
      assert log == init + [last];
    }
  }

  lemma RemoveAt<T>(s: seq<T>, i: nat)
    requires i < |s|
    ensures multiset(s) == multiset(s[..i] + s[i + 1..]) + multiset{s[i]}
  {
    assert s == s[..i] + [s[i]] + s[i + 1..];
  }

  /** Removing an element matched in both lists keeps them equal as multisets. */
  lemma DropMatched<T>(a: seq<T>, b: seq<T>, i: nat)
    requires multiset(a) == multiset(b)
    requires 0 < |a| && i < |b| && b[i] == a[0]
    ensures multiset(a[1..]) == multiset(b[..i] + b[i + 1..])
  {
    RemoveAt(b, i);
    assert a == [a[0]] + a[1..];
    assert multiset(a) == multiset(a[1..]) + multiset{a[0]};
    Cancel(multiset(a[1..]), multiset(b[..i] + b[i + 1..]), a[0]);
  }

  /** Removing the same position from a list and from its image keeps the one the image
      of the other. */
  lemma DropMapped<T, U>(b: seq<T>, vb: seq<U>, f: T -> U, i: nat)
    requires |vb| == |b| && i < |b|
    requires forall k :: 0 <= k < |b| ==> vb[k] == f(b[k])
    ensures var b', vb' := b[..i] + b[i + 1..], vb[..i] + vb[i + 1..];
            forall k :: 0 <= k < |b'| ==> vb'[k] == f(b'[k])
  {
    var b', vb' := b[..i] + b[i + 1..], vb[..i] + vb[i + 1..];
    forall k | 0 <= k < |b'|
      ensures vb'[k] == f(b'[k])
    {
      var j := if k < i then k else k + 1;
      assert vb'[k] == vb[j] && b'[k] == b[j];
    }
  }

  lemma Cancel<T>(x: multiset<T>, y: multiset<T>, e: T)
    requires x + multiset{e} == y + multiset{e}
    ensures x == y
  {
    forall z
      ensures x[z] == y[z]
    {
      assert (x + multiset{e})[z] == x[z] + multiset{e}[z];
      assert (y + multiset{e})[z] == y[z] + multiset{e}[z];
    }
  }

  /** Two lists with the same elements, mapped elementwise through the same function, have
      the same elements. */
  lemma {:induction false} MapPermutation<T, U>(a: seq<T>, b: seq<T>, va: seq<U>, vb: seq<U>, f: T -> U)
    requires multiset(a) == multiset(b) && |va| == |a| && |vb| == |b|
    requires forall k :: 0 <= k < |a| ==> va[k] == f(a[k])
    requires forall k :: 0 <= k < |b| ==> vb[k] == f(b[k])
    ensures multiset(va) == multiset(vb)
    decreases |a|
  {
    if a == [] {
      assert |b| == |multiset(b)| == 0;
    } else {
      assert a[0] in multiset(b);
      var i :| 0 <= i < |b| && b[i] == a[0];
      DropMatched(a, b, i);
      DropMapped(b, vb, f, i);
      RemoveAt(vb, i);
      MapPermutation(a[1..], b[..i] + b[i + 1..], va[1..], vb[..i] + vb[i + 1..], f);
      RemoveAt(va, 0);
      assert va[..0] + va[1..] == va[1..];
    }
  }

  /** The vote does not depend on the order in which the messages arrived: two logs with
      the same entries give the same vote. */
  lemma {:induction false} VoteIgnoresArrivalOrder(msg: string, log1: seq<string>, log2: seq<string>, recurse: nat)
    requires |msg| >= 2
    requires multiset(log1) == multiset(log2)
    ensures GetVote(msg, log1, recurse) == GetVote(msg, log2, recurse)
    decreases MaxLen(log1) - |msg|
  {
    if |msg| - 2 != recurse + 1 {
      var kids1, kids2 := Descendants(msg, log1), Descendants(msg, log2);
      forall x
        ensures multiset(kids1)[x] == multiset(kids2)[x]
      {
        DescendantsMultiplicity(msg, log1, x);
        DescendantsMultiplicity(msg, log2, x);
      }
      assert multiset(kids1) == multiset(kids2);
      var votes1, votes2 := ChildVotes(msg, log1, recurse), ChildVotes(msg, log2, recurse);
      var f := (s: string) => if |s| >= 2 then GetVote(s, log2, recurse) else 'R';
      forall k | 0 <= k < |kids1|
        ensures votes1[k] == f(kids1[k])
      {
        assert kids1[k] in kids1;
        VoteIgnoresArrivalOrder(kids1[k], log1, log2, recurse);
      }
      forall k | 0 <= k < |kids2|
        ensures votes2[k] == f(kids2[k])
      {
        assert kids2[k] in kids2;
      }
      MapPermutation(kids1, kids2, votes1, votes2, f);
      CountIsMultiplicity('A', votes1);
      CountIsMultiplicity('A', votes2);
      assert |votes1| == |multiset(votes1)| == |multiset(votes2)| == |votes2|;
    }
  }
}
