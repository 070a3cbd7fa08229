/** Base64: the encoder and decoder loops against section 4 of RFC 4648. */
module Base64 {
  import opened Serial

  // ----- section 4 of RFC 4648

  const ALPHABET: string := "ABCDEFGHIJKLMNOPQRSTUVWXYZ" + "abcdefghijklmnopqrstuvwxyz" + "0123456789+/"

  /** The digit for the value `v`, read off the ranges of the alphabet. */
  function Letter(v: nat): char
    requires v < 64
  {
    if v < 26 then 'A' + v as char
    else if v < 52 then 'a' + (v - 26) as char
    else if v < 62 then '0' + (v - 52) as char
    else if v == 62 then '+' else '/'
  }

  /** The value of a digit. */
  function Value(c: char): (v: nat)
    requires IsBase64(c)
    ensures v < 64 && Letter(v) == c
  {
    if 'A' <= c <= 'Z' then (c - 'A') as int
    else if 'a' <= c <= 'z' then (c - 'a') as int + 26
    else if '0' <= c <= '9' then (c - '0') as int + 52
    else if c == '+' then 62 else 63
  }

  predicate IsBase64(c: char) {
    'A' <= c <= 'Z' || 'a' <= c <= 'z' || '0' <= c <= '9' || c == '+' || c == '/'
  }

  predicate AllDigits(t: string) {
    forall i :: 0 <= i < |t| ==> IsBase64(t[i])
  }

  /** The 24-bit group that concatenates three octets. */
  function Group(a: byte, b: byte, c: byte): nat {
    65536 * (a as int) + 256 * (b as int) + c as int
  }

  /** A 24-bit group as four 6-bit digits. */
  function Digits(g: nat): (d: string)
    ensures |d| == 4
  {
    [Letter(g / 262144 % 64), Letter(g / 4096 % 64), Letter(g / 64 % 64), Letter(g % 64)]
  }

  function Encoding(s: seq<byte>): string {
    if |s| == 0 then ""
    else if |s| == 1 then Digits(Group(s[0], 0, 0))[..2] + "=="
    else if |s| == 2 then Digits(Group(s[0], s[1], 0))[..3] + "="
    else Digits(Group(s[0], s[1], s[2])) + Encoding(s[3..])
  }

  /** The 24-bit group that concatenates four 6-bit values. */
  function Joined(p: nat, q: nat, r: nat, s: nat): nat {
    262144 * p + 4096 * q + 64 * r + s
  }

  function Octets(g: nat): seq<byte> {
    [g / 65536 % 256, g / 256 % 256, g % 256]
  }

  /** The octets of a string of digits; an unfinished group is completed with zero bits. */
  function Meaning(t: string): seq<byte>
    requires AllDigits(t)
  {
    if |t| < 2 then []
    else if |t| == 2 then Octets(Joined(Value(t[0]), Value(t[1]), 0, 0))[..1]
    else if |t| == 3 then Octets(Joined(Value(t[0]), Value(t[1]), Value(t[2]), 0))[..2]
    else Octets(Joined(Value(t[0]), Value(t[1]), Value(t[2]), Value(t[3]))) + Meaning(t[4..])
  }

  /** The digits a string starts with. */
  function Leading(s: string): (t: string)
    ensures t <= s && AllDigits(t)
    ensures |t| < |s| ==> !IsBase64(s[|t|])
  {
    if |s| > 0 && IsBase64(s[0]) then [s[0]] + Leading(s[1..]) else ""
  }

  function Decoding(s: string): seq<byte> {
    Meaning(Leading(s))
  }

  // ----- laws

  function Quarters(n: nat): nat { 4 * ((n + 2) / 3) }

  lemma {:induction false} EncodingLength(s: seq<byte>)
    ensures |Encoding(s)| == Quarters(|s|)
    decreases |s|
  {
    hide Digits, Group;
    if |s| >= 3 {
      EncodingLength(s[3..]);
    }
  }

  lemma OctetsGroup(a: byte, b: byte, c: byte)
    ensures Octets(Group(a, b, c)) == [a, b, c]
  {
    var g := Group(a, b, c);
    Quotient(g, 65536, a, 256 * (b as int) + c);
    Quotient(g, 256, 256 * (a as int) + b, c);
    Quotient(256 * (a as int) + b, 256, a, b);
  }

  lemma DigitsJoined(p: nat, q: nat, r: nat, s: nat)
    requires p < 64 && q < 64 && r < 64 && s < 64
    ensures Digits(Joined(p, q, r, s)) == [Letter(p), Letter(q), Letter(r), Letter(s)]
  {
    hide Letter;
    var g := Joined(p, q, r, s);
    Quotient(g, 262144, p, 4096 * q + 64 * r + s);
    Quotient(g, 4096, 64 * p + q, 64 * r + s);
    Quotient(g, 64, 4096 * p + 64 * q + r, s);
    LowDigit(p, 0, p);
    LowDigit(64 * p + q, p, q);
    LowDigit(4096 * p + 64 * q + r, 64 * p + q, r);
    LowDigit(g, 4096 * p + 64 * q + r, s);
  }

  lemma LowDigit(x: nat, h: nat, d: nat)
    requires d < 64 && x == 64 * h + d
    ensures x % 64 == d
  {
  }

  // The masks and shifts by which the source cuts three octets into four values.

  function First(a: byte): nat { a / 4 }
  function Second(a: byte, b: byte): nat { a % 4 * 16 + b / 16 }
  function Third(b: byte, c: byte): nat { b % 16 * 4 + c / 64 }
  function Fourth(c: byte): nat { c % 64 }

  lemma Regroup(a: byte, b: byte, c: byte)
    ensures First(a) < 64 && Second(a, b) < 64 && Third(b, c) < 64 && Fourth(c) < 64
    ensures Joined(First(a), Second(a, b), Third(b, c), Fourth(c)) == Group(a, b, c)
    ensures Digits(Group(a, b, c)) == [Letter(First(a)), Letter(Second(a, b)), Letter(Third(b, c)), Letter(Fourth(c))]
  {
    DigitsJoined(First(a), Second(a, b), Third(b, c), Fourth(c));
  }

  lemma ZeroTail()
    ensures Fourth(0) == 0 && Third(0, 0) == 0
  {
  }

  lemma LetterValue(v: nat)
    requires v < 64
    ensures IsBase64(Letter(v)) && Value(Letter(v)) == v
  {
  }

  lemma {:induction false} LeadingConcat(t: string, rest: string)
    requires AllDigits(t)
    requires rest == [] || !IsBase64(rest[0])
    ensures Leading(t + rest) == t
  {
    if t == [] {
      assert t + rest == rest;
    } else {
      assert (t + rest)[1..] == t[1..] + rest;
      LeadingConcat(t[1..], rest);
    }
  }

  lemma GroupMeaning(a: byte, b: byte, c: byte)
    ensures var d := Digits(Group(a, b, c));
      && |d| == 4 && IsBase64(d[0]) && IsBase64(d[1]) && IsBase64(d[2]) && IsBase64(d[3])
      && Octets(Joined(Value(d[0]), Value(d[1]), Value(d[2]), Value(d[3]))) == [a, b, c]
      && (c == 0 ==> Octets(Joined(Value(d[0]), Value(d[1]), Value(d[2]), 0)) == [a, b, c])
      && (b == 0 && c == 0 ==> Octets(Joined(Value(d[0]), Value(d[1]), 0, 0)) == [a, b, c])
  {
    hide *;
    Regroup(a, b, c);
    OctetsGroup(a, b, c);
    ZeroTail();
    LetterValue(First(a));
    LetterValue(Second(a, b));
    LetterValue(Third(b, c));
    LetterValue(Fourth(c));
  }

  /** An encoding is digits, then padding; the digits stand for the octets encoded. */
  lemma {:induction false} EncodingMeans(s: seq<byte>) returns (t: string, pad: string)
    ensures Encoding(s) == t + pad
    ensures AllDigits(t) && Meaning(t) == s
    ensures pad == "" || pad == "=" || pad == "=="
    decreases |s|
  {
    hide Digits, Group, Octets, Joined, IsBase64, Value, Letter;
    if |s| == 0 {
      t, pad := "", "";
    } else if |s| < 3 {
      var b := if |s| == 2 then s[1] else 0;
      GroupMeaning(s[0], b, 0);
      var d := Digits(Group(s[0], b, 0));
      t, pad := d[..|s| + 1], if |s| == 1 then "==" else "=";
    } else {
      var u;
      u, pad := EncodingMeans(s[3..]);
      GroupMeaning(s[0], s[1], s[2]);
      var d := Digits(Group(s[0], s[1], s[2]));
      t := d + u;
      assert t[4..] == u && s == [s[0], s[1], s[2]] + s[3..];
    }
  }

  /** Decoding undoes encoding, for every byte string. */
  lemma RoundTrip(s: seq<byte>)
    ensures Decoding(Encoding(s)) == s
  {
    var t, pad := EncodingMeans(s);
    LeadingConcat(t, pad);
  }

  // ----- the loops

  lemma AlphabetUpper(v: nat)
    requires v < 26
    ensures ALPHABET[v] == Letter(v)
  {
  }

  lemma AlphabetLower(v: nat)
    requires 26 <= v < 52
    ensures ALPHABET[v] == Letter(v)
  {
  }

  lemma AlphabetRest(v: nat)
    requires 52 <= v < 64
    ensures ALPHABET[v] == Letter(v)
  {
  }

  lemma AlphabetLetter(v: nat)
    requires v < 64
    ensures |ALPHABET| == 64 && ALPHABET[v] == Letter(v)
  {
    if v < 26 {
      AlphabetUpper(v);
    } else if v < 52 {
      AlphabetLower(v);
    } else {
      AlphabetRest(v);
    }
  }

  /** The first position of a character, as an octet: 255 when there is none. */
  function FindFrom(c: char, k: nat): byte
    requires k <= 64
    decreases 64 - k
  {
    if k == 64 then 255 else if ALPHABET[k] == c then k else FindFrom(c, k + 1)
  }

  lemma {:induction false} FindLetter(c: char, k: nat)
    requires IsBase64(c) && k <= Value(c)
    ensures FindFrom(c, k) == Value(c)
    decreases 64 - k
  {
    AlphabetLetter(k);
    LetterValue(k);
    if k < Value(c) {
      FindLetter(c, k + 1);
    }
  }

  lemma {:induction false} FindNone(c: char, k: nat)
    requires !IsBase64(c) && k <= 64
    ensures FindFrom(c, k) == 255
    decreases 64 - k
  {
    if k < 64 {
      AlphabetLetter(k);
      LetterValue(k);
      FindNone(c, k + 1);
    }
  }

  /** The characters for a list of values. */
  function Spelled(values: seq<byte>): string
    requires forall i :: 0 <= i < |values| ==> values[i] < 64
  {
    seq(|values|, i requires 0 <= i < |values| => Letter(values[i]))
  }

  method Cut(three: array<byte>, four: array<byte>)
    requires three.Length == 3 && four.Length == 4 && three != four
    modifies four
    ensures forall i :: 0 <= i < 4 ==> four[i] < 64
    ensures Spelled(four[..]) == Digits(Group(three[0], three[1], three[2]))
  {
    hide Digits, Group, Letter;
    Regroup(three[0], three[1], three[2]);
    four[0] := three[0] / 4;
    four[1] := three[0] % 4 * 16 + three[1] / 16;
    four[2] := three[1] % 16 * 4 + three[2] / 64;
    four[3] := three[2] % 64;
    assert four[..] == [First(three[0]), Second(three[0], three[1]), Third(three[1], three[2]), Fourth(three[2])];
  }

  method Append(ret: string, four: array<byte>, k: nat) returns (r: string)
    requires four.Length == 4 && k <= 4 && forall i :: 0 <= i < 4 ==> four[i] < 64
    ensures r == ret + Spelled(four[..])[..k]
  {
    r := ret;
    for i := 0 to k
      invariant r == ret + Spelled(four[..])[..i]
    {
      AlphabetLetter(four[i]);
      r := r + [ALPHABET[four[i]]];
    }
  }

  lemma {:induction false} EncodingConcat(s: seq<byte>, t: seq<byte>)
    requires |s| % 3 == 0
    ensures Encoding(s + t) == Encoding(s) + Encoding(t)
    decreases |s|
  {
    hide Digits, Group;
    if s == [] {
      assert s + t == t;
    } else {
      assert (s + t)[3..] == s[3..] + t;
      EncodingConcat(s[3..], t);
    }
  }

  lemma NextGroup(s: seq<byte>, n: nat)
    requires 3 <= n <= |s| && n % 3 == 0
    ensures Encoding(s[..n]) == Encoding(s[..n - 3]) + Digits(Group(s[n - 3], s[n - 2], s[n - 1]))
  {
    hide Digits, Group;
    EncodingConcat(s[..n - 3], s[n - 3..n]);
    assert s[..n] == s[..n - 3] + s[n - 3..n];
  }

  function Padding(n: nat): (r: string)
    ensures |r| == n && forall i :: 0 <= i < n ==> r[i] == '='
  {
    seq(n, _ => '=')
  }

  lemma UnfinishedGroup(u: seq<byte>)
    requires 0 < |u| < 3
    ensures Encoding(u) == Digits(Group(u[0], if |u| == 2 then u[1] else 0, 0))[..|u| + 1] + Padding(3 - |u|)
  {
    hide Digits, Group;
    assert Padding(1) == "=" && Padding(2) == "==";
  }

  lemma LastGroup(s: seq<byte>, n: nat)
    requires n < |s| < n + 3 && n % 3 == 0
    ensures var b := if |s| == n + 2 then s[n + 1] else 0;
      Encoding(s) == Encoding(s[..n]) + Digits(Group(s[n], b, 0))[..|s| - n + 1] + Padding(3 - (|s| - n))
  {
    hide Digits, Group, Encoding, Padding;
    assert s == s[..n] + s[n..];
    EncodingConcat(s[..n], s[n..]);
    UnfinishedGroup(s[n..]);
    var b := if |s| == n + 2 then s[n + 1] else 0;
    Associative(Encoding(s[..n]), Digits(Group(s[n], b, 0))[..|s| - n + 1], Padding(3 - (|s| - n)));
  }

  lemma Associative(a: string, b: string, c: string)
    ensures a + (b + c) == a + b + c
  {}

  method EncodeGroup(ret: string, three: array<byte>, four: array<byte>) returns (r: string)
    requires three.Length == 3 && four.Length == 4 && three != four
    modifies four
    ensures r == ret + Digits(Group(three[0], three[1], three[2]))
  {
    hide Digits, Group;
    Cut(three, four);
    r := Append(ret, four, 4);
    assert Spelled(four[..])[..4] == Spelled(four[..]);
  }

  /** The encoder: three octets at a time through two small buffers. */
  method Encode(bytes: seq<byte>) returns (ret: string)
    requires |bytes| < TWO32
    ensures ret == Encoding(bytes)
  {
    hide Encoding, Digits, Group, Spelled, Padding;
    ret := "";
    var three, four := new byte[3], new byte[4];
    var i, n := 0, 0;
    ghost var g := 0;
    assert Encoding(bytes[..0]) == "" by {
      EncodingLength(bytes[..0]);
    }
    while n < |bytes|
      invariant i < 3 && n <= |bytes| && n == 3 * g + i
      invariant forall k :: 0 <= k < i ==> three[k] == bytes[3 * g + k]
      invariant ret == Encoding(bytes[..3 * g])
    {
      three[i] := bytes[n];
      n, i := n + 1, i + 1;
      if i == 3 {
        ret := EncodeGroup(ret, three, four);
        NextGroup(bytes, n);
        i, g := 0, g + 1;
      }
    }
    if i != 0 {
      ret := EncodeTail(ret, three, four, i);
      LastGroup(bytes, 3 * g);
    } else {
      assert bytes[..n] == bytes;
    }
  }

  method EncodeTail(ret: string, three: array<byte>, four: array<byte>, i: nat) returns (r: string)
    requires three.Length == 3 && four.Length == 4 && three != four && 0 < i < 3
    modifies three, four
    ensures var b := if i == 2 then old(three[1]) else 0;
      r == ret + Digits(Group(old(three[0]), b, 0))[..i + 1] + Padding(3 - i)
  {
    for j := i to 3
      invariant forall k :: 0 <= k < i ==> three[k] == old(three[k])
      invariant forall k :: i <= k < j ==> three[k] == 0
    {
      three[j] := 0;
    }
    Cut(three, four);
    r := Append(ret, four, i + 1);
    for k := i to 3
      invariant r == ret + Digits(Group(three[0], three[1], three[2]))[..i + 1] + Padding(k - i)
    {
      r := r + "=";
    }
  }

  // The masks and shifts by which the source glues four values to three octets.

  function Head(p: byte, q: byte): byte { (p * 4 + q / 16 % 4) % 256 }
  function Middle(q: byte, r: byte): byte { q % 16 * 16 + r / 4 % 16 }
  function Last(r: byte, s: byte): byte { (r % 4 * 64 + s) % 256 }

  lemma GlueSmall(p: nat, q: nat, r: nat, s: nat)
    requires p < 64 && q < 64 && r < 64 && s < 64
    ensures Head(p, q) == 4 * p + q / 16 && Middle(q, r) == q % 16 * 16 + r / 4 && Last(r, s) == r % 4 * 64 + s
    ensures Joined(p, q, r, s) == Group(Head(p, q), Middle(q, r), Last(r, s))
  {
    assert q / 16 < 4 && r / 4 < 16;
  }

  lemma OctetsJoined(p: nat, q: nat, r: nat, s: nat)
    requires p < 64 && q < 64 && r < 64 && s < 64
    ensures Octets(Joined(p, q, r, s)) == [Head(p, q), Middle(q, r), Last(r, s)]
  {
    hide *;
    GlueSmall(p, q, r, s);
    OctetsGroup(Head(p, q), Middle(q, r), Last(r, s));
  }

  method Lookup(letters: array<char>, values: array<byte>)
    requires letters.Length == 4 && values.Length == 4
    modifies values
    ensures forall i :: 0 <= i < 4 ==> values[i] == FindFrom(letters[i], 0)
  {
    for i := 0 to 4
      invariant forall k :: 0 <= k < i ==> values[k] == FindFrom(letters[k], 0)
    {
      values[i] := FindFrom(letters[i], 0);
    }
  }

  method Glue(values: array<byte>, three: array<byte>)
    requires values.Length == 4 && three.Length == 3 && values != three
    modifies three
    ensures three[..] == [Head(values[0], values[1]), Middle(values[1], values[2]), Last(values[2], values[3])]
  {
    three[0] := ((values[0] as int) * 4 + values[1] / 16 % 4) % 256;
    three[1] := values[1] % 16 * 16 + values[2] / 4 % 16;
    three[2] := ((values[2] as int) % 4 * 64 + values[3] as int) % 256;
  }

  lemma DigitParts(t: string, u: string)
    ensures AllDigits(t + u) <==> AllDigits(t) && AllDigits(u)
  {
    assert forall i :: 0 <= i < |t| ==> t[i] == (t + u)[i];
    assert forall i :: 0 <= i < |u| ==> u[i] == (t + u)[|t| + i];
  }

  lemma {:induction false} MeaningConcat(t: string, u: string)
    requires |t| % 4 == 0 && AllDigits(t + u)
    ensures AllDigits(t) && AllDigits(u)
    ensures Meaning(t + u) == Meaning(t) + Meaning(u)
    decreases |t|
  {
    hide Octets, Joined, IsBase64, Value;
    DigitParts(t, u);
    if t == [] {
      assert t + u == u;
    } else {
      assert (t + u)[4..] == t[4..] + u;
      MeaningConcat(t[4..], u);
    }
  }

  /** One whole group of letters, looked up and glued. */
  method DecodeGroup(ret: seq<byte>, letters: array<char>, values: array<byte>, three: array<byte>) returns (r: seq<byte>)
    requires letters.Length == 4 && values.Length == 4 && three.Length == 3 && values != three
    requires AllDigits(letters[..])
    modifies values, three
    ensures r == ret + Meaning(letters[..])
  {
    assert forall i :: 0 <= i < 4 ==> letters[i] in letters[..];
    Lookup(letters, values);
    Glue(values, three);
    forall i | 0 <= i < 4 ensures values[i] == Value(letters[i]) {
      FindLetter(letters[i], 0);
    }
    OctetsJoined(values[0], values[1], values[2], values[3]);
    hide Octets, Joined, IsBase64, Value, Head, Middle, Last;
    assert letters[..][4..] == [];
    r := AppendOctets(ret, three);
  }

  lemma TailMeans(t: string, r: byte, s: byte)
    requires 0 < |t| < 4 && AllDigits(t)
    ensures var q := if |t| > 1 then Value(t[1]) else r;
      var r' := if |t| > 2 then Value(t[2]) else r;
      Meaning(t) == [Head(Value(t[0]), q), Middle(q, r'), Last(r', s)][..|t| - 1]
  {
    hide Octets, Joined, IsBase64, Value;
    if |t| == 2 {
      OctetsJoined(Value(t[0]), Value(t[1]), 0, 0);
    } else if |t| == 3 {
      OctetsJoined(Value(t[0]), Value(t[1]), Value(t[2]), 0);
    }
  }

  /** The unfinished group at the end: the missing positions look up to 255 and
      reach only octets that are dropped. */
  method DecodeTail(ret: seq<byte>, letters: array<char>, values: array<byte>, three: array<byte>, i: nat) returns (r: seq<byte>)
    requires letters.Length == 4 && values.Length == 4 && three.Length == 3 && values != three && 0 < i < 4
    requires AllDigits(letters[..i])
    modifies letters, values, three
    ensures r == ret + Meaning(old(letters[..i]))
  {
    ghost var t := letters[..i];
    for j := i to 4
      invariant letters[..i] == t
      invariant forall k :: i <= k < j ==> letters[k] == '\0'
    {
      letters[j] := '\0';
    }
    Lookup(letters, values);
    Glue(values, three);
    forall k | 0 <= k < 4 ensures values[k] == if k < i then Value(t[k]) else 255 {
      assert k < i ==> letters[k] == t[k];
      if k < i {
        FindLetter(t[k], 0);
      } else {
        FindNone('\0', 0);
      }
    }
    TailMeans(t, 255, values[3]);
    r := ret;
    for j := 0 to i - 1
      invariant r == ret + three[..j]
    {
      r := r + [three[j]];
    }
  }

  lemma NoDigits(t: string)
    requires t == ""
    ensures AllDigits(t) && Meaning(t) == []
  {}

  lemma PadIsNoDigit()
    ensures !IsBase64('=')
  {}

  lemma NextMeaning(s: string, g: nat, n: nat)
    requires 4 * g <= n <= |s| && AllDigits(s[..n])
    ensures AllDigits(s[..4 * g]) && AllDigits(s[4 * g..n])
    ensures Meaning(s[..n]) == Meaning(s[..4 * g]) + Meaning(s[4 * g..n])
  {
    hide Meaning, IsBase64, AllDigits;
    var m := 4 * g;
    assert s[..n] == s[..m] + s[m..n];
    MeaningConcat(s[..m], s[m..n]);
  }

  lemma NextDigit(s: string, n: nat)
    requires n < |s| && AllDigits(s[..n]) && IsBase64(s[n])
    ensures AllDigits(s[..n + 1])
  {
    assert s[..n + 1] == s[..n] + [s[n]];
    DigitParts(s[..n], [s[n]]);
  }

  /** The decoder: it stops at the first character that is not a digit. */
  method Decode(s: string) returns (ret: seq<byte>)
    requires |s| < TWO31
    ensures ret == Decoding(s)
  {
    hide Meaning, Leading, IsBase64, AllDigits;
    ret := [];
    var letters, values, three := new char[4], new byte[4], new byte[3];
    var i, n := 0, 0;
    ghost var g := 0;
    NoDigits(s[..0]);
    while n < |s| && s[n] != '=' && IsBase64(s[n])
      invariant i < 4 && n <= |s| && n == 4 * g + i
      invariant forall k :: 0 <= k < i ==> letters[k] == s[4 * g + k]
      invariant AllDigits(s[..n]) && AllDigits(s[..4 * g]) && ret == Meaning(s[..4 * g])
    {
      letters[i] := s[n];
      NextDigit(s, n);
      n, i := n + 1, i + 1;
      if i == 4 {
        IsSlice(letters[..], s, 4 * g);
        NextMeaning(s, g, n);
        ret := DecodeGroup(ret, letters, values, three);
        i, g := 0, g + 1;
      }
    }
    StopsAt(s, n);
    if i != 0 {
      IsSlice(letters[..i], s, 4 * g);
      NextMeaning(s, g, n);
      ret := DecodeTail(ret, letters, values, three, i);
    }
  }

  lemma IsSlice(t: string, s: string, m: nat)
    requires m + |t| <= |s| && forall k :: 0 <= k < |t| ==> t[k] == s[m + k]
    ensures t == s[m..m + |t|]
  {}

  /** Where the loop ends the leading digits end. */
  lemma StopsAt(s: string, n: nat)
    requires n <= |s| && AllDigits(s[..n]) && (n < |s| ==> s[n] == '=' || !IsBase64(s[n]))
    ensures Leading(s) == s[..n]
  {
    PadIsNoDigit();
    LeadingConcat(s[..n], s[n..]);
    assert s == s[..n] + s[n..];
  }

  method AppendOctets(ret: seq<byte>, three: array<byte>) returns (r: seq<byte>)
    requires three.Length == 3
    ensures r == ret + three[..]
  {
    r := ret;
    for i := 0 to 3
      invariant r == ret + three[..i]
    {
      r := r + [three[i]];
    }
  }
}
