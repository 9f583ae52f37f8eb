/** Message ids: eight decimal digits counting the calls. */
module MsgIds {
  import opened Words
  import opened Modular

  const ZERO: Byte := 0x30
  const NINE: Byte := 0x39
  const INIT_MSG_ID: seq<Byte> := [ZERO, ZERO, ZERO, ZERO, ZERO, ZERO, ZERO, ZERO]
  const PERIOD: int := 100_000_000

  ghost predicate IsDigit(b: Byte) { ZERO <= b <= NINE }

  ghost predicate Digits(s: seq<Byte>) {
    forall i :: 0 <= i < |s| ==> IsDigit(s[i])
  }

  /** The number a string of digits stands for. */
  ghost function Value(s: seq<Byte>): int {
    if s == [] then 0 else 10 * Value(s[..|s| - 1]) + (s[|s| - 1] - ZERO)
  }

  /** k in n decimal digits, padded with zeros. */
  ghost function Padded(k: nat, n: nat): (s: seq<Byte>)
    ensures |s| == n && Digits(s)
  {
    if n == 0 then [] else Padded(k / 10, n - 1) + [ZERO + k % 10]
  }

  lemma {:induction false} ValueBounds(s: seq<Byte>)
    requires Digits(s)
    ensures 0 <= Value(s) < Pow10(|s|)
  {
    if s != [] {
      ValueBounds(s[..|s| - 1]);
    }
  }

  lemma {:induction false} PaddedValue(s: seq<Byte>)
    requires Digits(s)
    ensures Value(s) >= 0 && Padded(Value(s), |s|) == s
  {
    ValueBounds(s);
    if s != [] {
      var h, t := s[..|s| - 1], s[|s| - 1];
      PaddedValue(h);
      assert Value(s) / 10 == Value(h) && Value(s) % 10 == t - ZERO;
      assert s == h + [t];
    }
  }

  lemma {:induction false} ValuePadded(k: nat, n: nat)
    requires k < Pow10(n)
    ensures Value(Padded(k, n)) == k
  {
    if n > 0 {
      ValuePadded(k / 10, n - 1);
      assert Padded(k, n)[..n - 1] == Padded(k / 10, n - 1);
    }
  }

  /** A string that ends in the same digit from position i on. */
  lemma {:induction false} TailValue(s: seq<Byte>, i: nat, digit: Byte)
    requires i <= |s| && IsDigit(digit) && forall j :: i <= j < |s| ==> s[j] == digit
    ensures digit == ZERO ==> Value(s) == Pow10(|s| - i) * Value(s[..i])
    ensures digit == NINE ==> Value(s) + 1 == Pow10(|s| - i) * (Value(s[..i]) + 1)
  {
    if i == |s| {
      assert s[..i] == s;
    } else {
      var h := s[..|s| - 1];
      TailValue(h, i, digit);
      assert h[..i] == s[..i];
      TimesTen(Pow10(|h| - i), Value(s[..i]));
      TimesTen(Pow10(|h| - i), Value(s[..i]) + 1);
    }
  }

  lemma TimesTen(p: int, v: int)
    ensures 10 * (p * v) == (10 * p) * v
  {
  }

  /** Adding one past a tail of nines. */
  lemma CarryValue(s: seq<Byte>, t: seq<Byte>, i: nat)
    requires |t| == |s| && i < |s| && s[i] < NINE
    requires forall j :: i < j < |s| ==> s[j] == NINE && t[j] == ZERO
    requires s[..i] == t[..i] && t[i] == s[i] + 1
    ensures Value(t) == Value(s) + 1
  {
    TailValue(s, i + 1, NINE);
    TailValue(t, i + 1, ZERO);
    assert s[..i + 1][..i] == s[..i] && t[..i + 1][..i] == t[..i];
  }

  lemma AllNines(s: seq<Byte>)
    requires |s| == 8 && forall j :: 0 <= j < |s| ==> s[j] == NINE
    ensures Value(s) == PERIOD - 1
  {
    TailValue(s, 0, NINE);
    PowEight();
  }

  lemma PowEight()
    ensures Pow10(8) == PERIOD
  {
    assert Pow10(4) == 10000;
    assert Pow10(6) == 1000000;
  }

  lemma InitValue()
    ensures Value(INIT_MSG_ID) == 0
  {
    TailValue(INIT_MSG_ID, 0, ZERO);
    assert INIT_MSG_ID[..0] == [];
  }

  /** The id of the k-th call from start-up. */
  ghost function IdOfCall(k: nat): seq<Byte> { Padded(k % PERIOD, 8) }

  /** Two ids are equal exactly when their calls are a multiple of 10^8 apart; so any 10^8
      consecutive ids are distinct. */
  lemma IdsDistinct(j: nat, k: nat)
    requires j <= k
    ensures IdOfCall(j) == IdOfCall(k) <==> (k - j) % PERIOD == 0
    ensures 0 < k - j < PERIOD ==> IdOfCall(j) != IdOfCall(k)
  {
    PowEight();
    ValuePadded(j % PERIOD, 8);
    ValuePadded(k % PERIOD, 8);
    SameRemainder(j, k, PERIOD);
  }

  lemma NextWraps(s: seq<Byte>, k: nat)
    requires |s| == 8 && k > 0 && Value(s) == (k - 1) % PERIOD && forall j :: 0 <= j < |s| ==> s[j] == NINE
    ensures Value(INIT_MSG_ID) == k % PERIOD && INIT_MSG_ID == IdOfCall(k)
  {
    AllNines(s);
    InitValue();
    NextRemainder(k - 1, PERIOD);
    PaddedValue(INIT_MSG_ID);
  }

  lemma NextCarries(s: seq<Byte>, t: seq<Byte>, i: nat, k: nat)
    requires |s| == |t| == 8 && Digits(s) && k > 0 && Value(s) == (k - 1) % PERIOD
    requires i < 8 && s[i] < NINE && forall j :: i < j < 8 ==> s[j] == NINE && t[j] == ZERO
    requires s[..i] == t[..i] && t[i] == s[i] + 1
    ensures Digits(t) && Value(t) == k % PERIOD && t == IdOfCall(k)
  {
    assert forall j :: 0 <= j < i ==> t[j] == t[..i][j] == s[j];
    CarryValue(s, t, i);
    ValueBounds(t);
    PowEight();
    NextRemainder(k - 1, PERIOD);
    PaddedValue(t);
  }

  class Generator {
    var id: seq<Byte>
    ghost var calls: nat

    ghost predicate Valid()
      reads this
    {
      |id| == 8 && Digits(id) && Value(id) == calls % PERIOD
    }

    constructor ()
      ensures Valid() && calls == 0
    {
      id := INIT_MSG_ID;
      calls := 0;
      InitValue();
    }

    /** The k-th call returns k modulo 10^8 in eight digits. */
    method GenerateMsgID() returns (r: seq<Byte>)
      requires Valid()
      modifies this
      ensures Valid() && calls == old(calls) + 1 && r == id == IdOfCall(calls)
    {
      var i := |id| - 1;
      while i >= 0 && id[i] == NINE
        invariant -1 <= i < |id|
        invariant forall j :: i < j < |id| ==> id[j] == NINE
      {
        i := i - 1;
      }
      ghost var was := id;
      calls := calls + 1;
      if i < 0 {
        NextWraps(was, calls);
        id := INIT_MSG_ID;
        return id;
      }
      var j := i + 1;
      while j < |id|
        invariant i < j <= |id| == 8 && calls == old(calls) + 1
        invariant id[..i + 1] == was[..i + 1]
        invariant forall k :: i < k < j ==> id[k] == ZERO
        invariant forall k :: j <= k < |id| ==> id[k] == NINE
      {
        id := id[j := ZERO];
        j := j + 1;
      }
      id := id[i := id[i] + 1];
      NextCarries(was, id, i, calls);
      return id;
    }
  }
}
