/** The decimal and hexadecimal numerals of the HTTP parser: a digit at a time into
    64 bits, with a guard before each step. */
module HttpNumeral {
  import opened Serial

  type u64 = x: int | 0 <= x < 0x1_0000_0000_0000_0000

  /** `ULLONG_MAX`, which stands for "no length given". */
  const UNKNOWN: u64 := 0xFFFF_FFFF_FFFF_FFFF

  datatype Option<T> = None | Some(value: T)

  /** `unhex`: the value of a hexadecimal digit, or -1. */
  function Unhex(ch: byte): (v: int)
    ensures -1 <= v < 16
  {
    if 48 <= ch <= 57 then ch - 48
    else if 65 <= ch <= 70 then ch - 55
    else if 97 <= ch <= 102 then ch - 87
    else -1
  }

  function Undec(ch: byte): (v: int)
    ensures -1 <= v < 10
  {
    if 48 <= ch <= 57 then ch - 48 else -1
  }

  const DIGITS: string := "0123456789abcdef"
  const CAPITALS: string := "0123456789ABCDEF"

  /** The two tables by the characters: an octet has a value exactly when it is one of the sixteen digits, small
      or capital, and the value is its place among them. */
  lemma DigitMeans(ch: byte)
    ensures Unhex(ch) >= 0 ==> ch == DIGITS[Unhex(ch)] as int || ch == CAPITALS[Unhex(ch)] as int
    ensures Unhex(ch) == -1 ==> forall i :: 0 <= i < 16 ==> ch != DIGITS[i] as int && ch != CAPITALS[i] as int
    ensures Undec(ch) == if Unhex(ch) < 10 then Unhex(ch) else -1
  {
  }

  /** One more digit: 64-bit arithmetic that may wrap, and the guard on the old value. */
  function Push(base: nat, acc: u64, digit: nat): Option<u64>
    requires base == 10 || base == 16
  {
    var t := ((acc as int) * base % 0x1_0000_0000_0000_0000 + digit) % 0x1_0000_0000_0000_0000;
    if Guard(base) < acc then None else Some(t)
  }

  function Guard(base: nat): nat
    requires base == 10 || base == 16
  {
    (UNKNOWN - base) / base
  }

  lemma PushDecimal(acc: u64, digit: nat)
    requires digit < 10 && acc <= Guard(10)
    ensures Push(10, acc, digit) == Some(acc * 10 + digit) && acc * 10 + digit < UNKNOWN
  {
  }

  lemma PushHex(acc: u64, digit: nat)
    requires digit < 16 && acc <= Guard(16)
    ensures Push(16, acc, digit) == Some(acc * 16 + digit) && acc * 16 + digit < UNKNOWN
  {
  }

  /** The guard keeps every step exact, and away from the value that means "unknown". */
  lemma PushExact(base: nat, acc: u64, digit: nat)
    requires base == 10 || base == 16
    requires digit < base
    ensures var r := Push(base, acc, digit);
      && (r.Some? <==> acc <= Guard(base))
      && (r.Some? ==> r.value == acc * base + digit && r.value < UNKNOWN)
  {
    if acc <= Guard(base) {
      if base == 10 {
        PushDecimal(acc, digit);
      } else {
        PushHex(acc, digit);
      }
    }
  }

  // ----- a whole numeral

  ghost predicate Numeral(base: nat, digits: seq<nat>) {
    0 < |digits| && forall i :: 0 <= i < |digits| ==> digits[i] < base
  }

  /** The number a list of digits stands for, the most significant first. */
  function Value(base: nat, digits: seq<nat>): nat {
    if digits == [] then 0 else Value(base, digits[..|digits| - 1]) * base + digits[|digits| - 1]
  }

  /** The loop: the first digit is stored, each further one pushed. */
  function Accumulate(base: nat, acc: u64, digits: seq<nat>): Option<u64>
    requires base == 10 || base == 16
    decreases |digits|
  {
    if digits == [] then Some(acc) else
    var r := Push(base, acc, digits[0]);
    if r.None? then None else Accumulate(base, r.value, digits[1..])
  }

  lemma ValueStep(base: nat, digits: seq<nat>, d: nat)
    ensures Value(base, digits + [d]) == Value(base, digits) * base + d
  {
    assert (digits + [d])[..|digits|] == digits;
  }

  lemma {:induction false} ValueGrows(base: nat, digits: seq<nat>, more: seq<nat>)
    requires base > 0
    ensures Value(base, digits) <= Value(base, digits + more)
    decreases |more|
  {
    if more == [] {
      assert digits + more == digits;
    } else {
      var init := more[..|more| - 1];
      ValueGrows(base, digits, init);
      assert digits + more == (digits + init) + [more[|more| - 1]];
      ValueStep(base, digits + init, more[|more| - 1]);
      Larger(Value(base, digits + init), base);
    }
  }

  lemma Larger(v: nat, base: nat)
    requires base > 0
    ensures v <= v * base
  {
  }

  /** After the digits `seen`, the rest of a numeral is accepted exactly when the value of all
      digits but the last is within the guard; and then the result is the value of the
      whole numeral. */
  lemma {:induction false} AccumulateExact(base: nat, seen: seq<nat>, digits: seq<nat>)
    requires base == 10 || base == 16
    requires forall i :: 0 <= i < |digits| ==> digits[i] < base
    requires Value(base, seen) < UNKNOWN
    ensures var r := Accumulate(base, Value(base, seen), digits);
      var all := seen + digits;
      && (digits != [] ==> (r.Some? <==> Value(base, all[..|all| - 1]) <= Guard(base)))
      && (r.Some? ==> r.value == Value(base, all) && r.value < UNKNOWN)
    decreases |digits|
  {
    hide Push, Guard, Value;
    if digits == [] {
      assert seen + digits == seen;
    } else {
      var acc, all := Value(base, seen), seen + digits;
      var r := Push(base, acc, digits[0]);
      PushExact(base, acc, digits[0]);
      ValueStep(base, seen, digits[0]);
      var seen', rest := seen + [digits[0]], digits[1..];
      assert seen' + rest == all;
      if r.Some? {
        AccumulateExact(base, seen', rest);
        if rest == [] {
          assert all[..|all| - 1] == seen;
        }
      } else {
        assert all[..|all| - 1] == seen + all[|seen|..|all| - 1];
        ValueGrows(base, seen, all[|seen|..|all| - 1]);
      }
    }
  }

  /** The loop over a whole numeral: the first digit as it is, then the rest. */
  function Parse(base: nat, digits: seq<nat>): Option<u64>
    requires base == 10 || base == 16
    requires Numeral(base, digits)
  {
    Accumulate(base, digits[0], digits[1..])
  }

  /** A numeral is accepted exactly when all its digits but the last are worth no more than the
      guard; its value is then exact and is not the one that means "unknown". */
  lemma ParseExact(base: nat, digits: seq<nat>)
    requires base == 10 || base == 16
    requires Numeral(base, digits)
    ensures var r := Parse(base, digits);
      && (r.Some? <==> Value(base, digits[..|digits| - 1]) <= Guard(base))
      && (r.Some? ==> r.value == Value(base, digits) && r.value < UNKNOWN)
  {
    assert Value(base, [digits[0]]) == digits[0] by {
      ValueStep(base, [], digits[0]);
      assert [] + [digits[0]] == [digits[0]];
    }
    AccumulateExact(base, [digits[0]], digits[1..]);
    assert [digits[0]] + digits[1..] == digits;
    if |digits| == 1 {
      assert digits[..0] == [];
    }
  }

  // ----- the value of a Content-Length field

  /** The decimal digits a field value starts with. */
  function LeadingDigits(value: seq<byte>): (k: nat)
    ensures k <= |value| && forall i :: 0 <= i < k ==> Undec(value[i]) >= 0
    ensures k < |value| ==> Undec(value[k]) == -1
  {
    if value != [] && Undec(value[0]) >= 0 then 1 + LeadingDigits(value[1..]) else 0
  }

  function Decimal(value: seq<byte>): seq<nat>
    requires forall i :: 0 <= i < |value| ==> Undec(value[i]) >= 0
  {
    seq(|value|, i requires 0 <= i < |value| => Undec(value[i]))
  }

  /** The length a field value declares: digits, then nothing but spaces. */
  function DeclaredLength(value: seq<byte>): Option<u64> {
    var k := LeadingDigits(value);
    if k == 0 || exists i :: k <= i < |value| && value[i] != 32 then None else Parse(10, Decimal(value[..k]))
  }

  /** The first `k` octets are decimal digits and spaces follow them. */
  ghost predicate DigitsThenSpaces(value: seq<byte>, k: nat) {
    && 0 < k <= |value| && (forall i :: 0 <= i < k ==> Undec(value[i]) >= 0)
    && forall i :: k <= i < |value| ==> value[i] == 32
  }

  /** A field value declares a length exactly when it is digits followed by nothing but spaces, and all
      digits but the last are worth no more than the guard; the length is the number that they spell. */
  lemma DeclaredMeans(value: seq<byte>, k: nat)
    requires DigitsThenSpaces(value, k)
    ensures var ds := Decimal(value[..k]);
      DeclaredLength(value) ==
        if Value(10, ds[..k - 1]) <= Guard(10) && Value(10, ds) < UNKNOWN then Some(Value(10, ds)) else None
  {
    DigitsEnd(value, k);
    ParseExact(10, Decimal(value[..k]));
  }

  lemma DeclaredElse(value: seq<byte>)
    requires forall k: nat :: !DigitsThenSpaces(value, k)
    ensures DeclaredLength(value) == None
  {
    var k := LeadingDigits(value);
    assert !DigitsThenSpaces(value, k);
  }

  lemma {:induction false} DigitsEnd(value: seq<byte>, k: nat)
    requires k <= |value| && forall i :: 0 <= i < k ==> Undec(value[i]) >= 0
    requires k < |value| ==> Undec(value[k]) == -1
    ensures LeadingDigits(value) == k
  {
    if k > 0 {
      DigitsEnd(value[1..], k - 1);
    }
  }

  lemma {:induction false} AccumulateNext(base: nat, acc: u64, digits: seq<nat>, d: nat)
    requires base == 10 || base == 16
    ensures var r := Accumulate(base, acc, digits);
      Accumulate(base, acc, digits + [d]) == if r.None? then None else Push(base, r.value, d)
    decreases |digits|
  {
    hide Push;
    if digits == [] {
      assert digits + [d] == [d] && [d][1..] == [];
    } else {
      var r := Push(base, acc, digits[0]);
      assert (digits + [d])[1..] == digits[1..] + [d];
      if r.Some? {
        AccumulateNext(base, r.value, digits[1..], d);
      }
    }
  }

  lemma {:induction false} AccumulateFails(base: nat, acc: u64, digits: seq<nat>, more: seq<nat>)
    requires base == 10 || base == 16
    requires Accumulate(base, acc, digits).None?
    ensures Accumulate(base, acc, digits + more).None?
    decreases |digits|
  {
    hide Push;
    var r := Push(base, acc, digits[0]);
    assert (digits + more)[1..] == digits[1..] + more;
    if r.Some? {
      AccumulateFails(base, r.value, digits[1..], more);
    }
  }

  /** Reading a Content-Length value: digits are pushed until a space, after which only
      spaces may follow. */
  method ContentLength(value: seq<byte>) returns (r: Option<u64>)
    ensures r == DeclaredLength(value)
  {
    hide Push, Accumulate;
    if value == [] || Undec(value[0]) == -1 {
      return None;
    }
    var length: u64 := Undec(value[0]);
    var i, blank := 1, false;
    ghost var k := 1;
    assert Decimal(value[..1])[1..] == [];
    EmptyAccumulate(length);
    while i < |value|
      invariant 1 <= k <= i <= |value| && (if blank then k < i else k == i)
      invariant forall j :: 0 <= j < k ==> Undec(value[j]) >= 0
      invariant forall j :: k <= j < i ==> value[j] == 32
      invariant Parse(10, Decimal(value[..k])) == Some(length)
    {
      var ch := value[i];
      if ch == 32 {
        blank := true;
      } else if blank {
        DigitsEnd(value, k);
        return None;
      } else {
        if Undec(ch) == -1 {
          DigitsEnd(value, k);
          return None;
        }
        var t := Push(10, length, Undec(ch));
        ghost var ds := Decimal(value[..k]);
        assert Decimal(value[..k + 1]) == ds + [Undec(ch)];
        assert (ds + [Undec(ch)])[1..] == ds[1..] + [Undec(ch)];
        AccumulateNext(10, ds[0], ds[1..], Undec(ch));
        if t.None? {
          Refused(value, k + 1);
          return None;
        }
        length := t.value;
        k := k + 1;
      }
      i := i + 1;
    }
    DigitsEnd(value, k);
    r := Some(length);
  }

  lemma EmptyAccumulate(acc: u64)
    ensures Accumulate(10, acc, []) == Some(acc)
  {
  }

  /** Digits that overflow are refused whatever follows them. */
  lemma Refused(value: seq<byte>, k: nat)
    requires 0 < k <= |value| && forall i :: 0 <= i < k ==> Undec(value[i]) >= 0
    requires Parse(10, Decimal(value[..k])).None?
    ensures DeclaredLength(value).None?
  {
    var m := LeadingDigits(value);
    assert k <= m;
    var ds, all := Decimal(value[..k]), Decimal(value[..m]);
    assert all == ds + all[k..];
    assert all[1..] == ds[1..] + all[k..];
    AccumulateFails(10, ds[0], ds[1..], all[k..]);
  }
}
