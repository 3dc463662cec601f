/** The path codec. A message is the string "<order> <hops>": one order character ('A' for
    attack, 'R' for retreat), a separator, and one decimal digit per participant the message
    has passed through, commander first (for example "A 012"). Relays extend the hop digits
    with strconv.Itoa of their own ID; transpose decodes them one character per hop. */
module Codec {
  import opened Wrappers

  datatype DecodeError = NotADigit | TooShort | BadOrder | BadSeparator

  predicate IsDigit(c: char) { '0' <= c <= '9' }

  /** The character of a single decimal digit. */
  function DigitChar(d: nat): (c: char)
    requires d < 10
    ensures IsDigit(c) && (c as int) - ('0' as int) == d
  {
    (('0' as int) + d) as char
  }

  /** strconv.Atoi of a one-character string that holds a digit. */
  function DigitValue(c: char): (d: nat)
    requires IsDigit(c)
    ensures d < 10 && DigitChar(d) == c
  {
    (c as int) - ('0' as int)
  }

  /** strconv.Itoa of a non-negative number: its decimal digits, most significant first.
      Only the IDs 0..9 give a single character, which is what one-character-per-hop
      decoding relies on. */
  function Itoa(n: nat): (s: string)
    ensures 1 <= |s| && forall i :: 0 <= i < |s| ==> IsDigit(s[i])
    ensures n < 10 <==> |s| == 1
    ensures n < 10 ==> DigitValue(s[0]) == n
    decreases n
  {
    if n < 10 then [DigitChar(n)] else Itoa(n / 10) + [DigitChar(n % 10)]
  }

  /** Every ID of the path is a single decimal digit. */
  predicate SmallIds(p: seq<nat>) {
    forall i :: 0 <= i < |p| ==> p[i] < 10
  }

  /** The hop digits of a path, as the relays build them: Itoa of each ID, concatenated. */
  function EncodePath(p: seq<nat>): (s: string)
    ensures forall i :: 0 <= i < |s| ==> IsDigit(s[i])
    ensures SmallIds(p) ==> |s| == |p|
  {
    if p == [] then "" else EncodePath(p[..|p| - 1]) + Itoa(p[|p| - 1])
  }

  /** What transpose computes: one ID per character, and a fatal error (here a Failure)
      as soon as a character is not a decimal digit. */
  function DecodePath(s: string): (r: Result<seq<nat>, DecodeError>)
    ensures r.Success? <==> forall i :: 0 <= i < |s| ==> IsDigit(s[i])
    ensures r.Failure? ==> r.error == NotADigit
    ensures r.Success? ==> |r.value| == |s| && SmallIds(r.value)
    ensures r.Success? ==> forall i :: 0 <= i < |s| ==> r.value[i] == DigitValue(s[i])
  {
    if s == [] then Success([])
    else
      match DecodePath(s[..|s| - 1])
      case Failure(e) => Failure(e)
      case Success(p) =>
        if IsDigit(s[|s| - 1]) then Success(p + [DigitValue(s[|s| - 1])]) else Failure(NotADigit)
  }

  /** Decoding the digits the relays appended gives back the path. */
  lemma {:induction false} PathRoundTrip(p: seq<nat>)
    requires SmallIds(p)
    ensures DecodePath(EncodePath(p)) == Success(p)
  {
    if p != [] {
      var init := p[..|p| - 1];
      PathRoundTrip(init);
      assert EncodePath(p) == EncodePath(init) + [DigitChar(p[|p| - 1])];
      assert EncodePath(p)[..|EncodePath(p)| - 1] == EncodePath(init);
      assert init + [p[|p| - 1]] == p;
    }
  }

  /** A string of digits is the encoding of the path it decodes to. */
  lemma {:induction false} PathDecodeEncode(s: string, p: seq<nat>)
    requires DecodePath(s) == Success(p)
    ensures EncodePath(p) == s
  {
    if s != [] {
      var init := s[..|s| - 1];
      var q := DecodePath(init).value;
      PathDecodeEncode(init, q);
      assert p == q + [DigitValue(s[|s| - 1])];
      assert p[..|p| - 1] == q;
      assert init + [s[|s| - 1]] == s;
    }
  }

  /** transpose (BGenerals.go): fills an array with the value of each character and stops
      with an error at the first character that is not a digit. */
  method Transpose(p: string) returns (r: Result<seq<nat>, DecodeError>)
    ensures r == DecodePath(p)
  {
    var intPath := new nat[|p|];
    var i := 0;
    while i < |p|
      invariant 0 <= i <= |p|
      invariant forall k :: 0 <= k < i ==> IsDigit(p[k]) && intPath[k] == DigitValue(p[k])
    {
      if !IsDigit(p[i]) {
        return Failure(NotADigit);
      }
      intPath[i] := DigitValue(p[i]);
      i := i + 1;
    }
    r := Success(intPath[..]);
    assert r.value == DecodePath(p).value;
  }

  /** find (BGenerals.go): linear search with an early return. */
  method Find(path: seq<nat>, s: nat) returns (found: bool)
    ensures found <==> s in path
  {
    var i := 0;
    while i < |path|
      invariant 0 <= i <= |path|
      invariant s !in path[..i]
    {
      if path[i] == s {
        return true;
      }
      assert path[..i + 1] == path[..i] + [path[i]];
      i := i + 1;
    }
    assert path[..i] == path;
    return false;
  }

  datatype Order = Affirm | Retreat

  function OrderChar(o: Order): char {
    if o == Affirm then 'A' else 'R'
  }

  function Opposite(o: Order): (r: Order)
    ensures r != o && OrderChar(r) != OrderChar(o)
  {
    if o == Affirm then Retreat else Affirm
  }

  /** A message with its path decoded. */
  datatype Msg = Msg(order: Order, path: seq<nat>)

  function Encode(m: Msg): string {
    [OrderChar(m.order), ' '] + EncodePath(m.path)
  }

  /** The message grammar: order character, blank, hop digits. */
  function Decode(s: string): (r: Result<Msg, DecodeError>)
    ensures r.Success? ==> |s| >= 2 && DecodePath(s[2..]) == Success(r.value.path)
    ensures r.Success? ==> s[0] == OrderChar(r.value.order)
  {
    if |s| < 2 then Failure(TooShort)
    else if s[0] != 'A' && s[0] != 'R' then Failure(BadOrder)
    else if s[1] != ' ' then Failure(BadSeparator)
    else
      match DecodePath(s[2..])
      case Failure(e) => Failure(e)
      case Success(p) => Success(Msg(if s[0] == 'A' then Affirm else Retreat, p))
  }

  lemma MsgRoundTrip(m: Msg)
    requires SmallIds(m.path)
    ensures Decode(Encode(m)) == Success(m)
  {
    var s := Encode(m);
    assert s[2..] == EncodePath(m.path);
    PathRoundTrip(m.path);
  }

  lemma MsgDecodeEncode(s: string, m: Msg)
    requires Decode(s) == Success(m)
    ensures Encode(m) == s && SmallIds(m.path)
  {
    PathDecodeEncode(s[2..], m.path);
    assert s == [s[0], s[1]] + s[2..];
  }
}
