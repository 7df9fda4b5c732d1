/** The two text formats of bytea (sections 8.4.1 and 8.4.2 of the PostgreSQL manual): hex and
    escape. */
module PgBytea {
  import opened Common
  import opened PgArrayParser

  const LOWER_X: Byte := 120
  const ZERO: Byte := 48
  const LOWER_A: Byte := 97
  const UPPER_A: Byte := 65

  // ----- hex -----

  function HexDigit(n: int): Byte
    requires 0 <= n < 16
  {
    if n < 10 then ZERO + n as Byte else LOWER_A + (n - 10) as Byte
  }

  function FromHex(c: Byte): Option<int> {
    if ZERO <= c <= ZERO + 9 then Some((c - ZERO) as int)
    else if LOWER_A <= c <= LOWER_A + 5 then Some((c - LOWER_A) as int + 10)
    else if UPPER_A <= c <= UPPER_A + 5 then Some((c - UPPER_A) as int + 10)
    else None
  }

  function HexEncode(v: Bytes): (r: Bytes)
    ensures |r| == 2 * |v|
  {
    if v == [] then [] else [HexDigit(v[0] as int / 16), HexDigit(v[0] as int % 16)] + HexEncode(v[1..])
  }

  /** None if a digit is not one, or if there is one too many. */
  function HexDecode(s: Bytes): (r: Option<Bytes>)
    ensures r.Some? ==> 2 * |r.value| == |s|
  {
    if s == [] then Some([])
    else if |s| == 1 || FromHex(s[0]) == None || FromHex(s[1]) == None then None
    else
      match HexDecode(s[2..])
      case None => None
      case Some(rest) => Some([(16 * FromHex(s[0]).value + FromHex(s[1]).value) as Byte] + rest)
  }

  lemma {:induction false} HexRoundTrip(v: Bytes)
    ensures HexDecode(HexEncode(v)) == Some(v)
  {
    if v == [] {
    } else {
      HexRoundTrip(v[1..]);
      assert HexEncode(v)[2..] == HexEncode(v[1..]);
      var n := v[0] as int;
      assert FromHex(HexDigit(n / 16)) == Some(n / 16) && FromHex(HexDigit(n % 16)) == Some(n % 16);
      assert 16 * (n / 16) + n % 16 == n;
      assert [v[0]] + v[1..] == v;
    }
  }

  /** The character is a digit of base 16 with the value, in either case. */
  predicate IsHexDigit(c: Byte, value: int) {
    || (48 <= c <= 57 && value == c as int - 48)
    || (97 <= c <= 102 && value == c as int - 87)
    || (65 <= c <= 70 && value == c as int - 55)
  }

  predicate IsPair(high: Byte, low: Byte, b: Byte) {
    IsHexDigit(high, b as int / 16) && IsHexDigit(low, b as int % 16)
  }

  /** The pairs of digits stand for the bytes. */
  ghost predicate HexPairs(s: Bytes, v: Bytes) {
    |s| == 2 * |v| && forall i {:trigger v[i]} :: 0 <= i < |v| ==> IsPair(s[2 * i], s[2 * i + 1], v[i])
  }

  lemma FirstPair(high: Byte, low: Byte, b: Byte)
    ensures IsPair(high, low, b)
       <==> FromHex(high).Some? && FromHex(low).Some? && b as int == 16 * FromHex(high).value + FromHex(low).value
  {
    var n := b as int;
    assert n == 16 * (n / 16) + n % 16;
  }

  lemma PairsTail(s: Bytes, v: Bytes)
    requires |s| == 2 * |v| && v != []
    ensures HexPairs(s, v) <==> IsPair(s[0], s[1], v[0]) && HexPairs(s[2..], v[1..])
  {
    var t, w := s[2..], v[1..];
    assert forall i :: 0 <= i < |w| ==> t[2 * i] == s[2 * (i + 1)] && t[2 * i + 1] == s[2 * (i + 1) + 1];
    if HexPairs(s, v) {
      assert IsPair(s[2 * 0], s[2 * 0 + 1], v[0]);
      forall i | 0 <= i < |w| ensures IsPair(t[2 * i], t[2 * i + 1], w[i]) {
        assert IsPair(s[2 * (i + 1)], s[2 * (i + 1) + 1], v[i + 1]);
      }
    }
    if IsPair(s[0], s[1], v[0]) && HexPairs(t, w) {
      forall i | 0 <= i < |v| ensures IsPair(s[2 * i], s[2 * i + 1], v[i]) {
        if i > 0 {
          assert IsPair(t[2 * (i - 1)], t[2 * (i - 1) + 1], w[i - 1]);
        }
      }
    }
  }

  /** The hex format is read exactly as its pairs of digits. */
  lemma {:induction false} HexReadsExactly(s: Bytes, v: Bytes)
    ensures HexDecode(s) == Some(v) <==> HexPairs(s, v)
  {
    if s == [] {
    } else if |s| >= 2 && v != [] && |s| == 2 * |v| {
      HexReadsExactly(s[2..], v[1..]);
      PairsTail(s, v);
      FirstPair(s[0], s[1], v[0]);
      assert [v[0]] + v[1..] == v;
    }
  }

  // ----- escape -----

  function OctalDigit(n: int): Byte
    requires 0 <= n < 8
  {
    ZERO + n as Byte
  }

  predicate IsOctal(c: Byte) {
    ZERO <= c <= ZERO + 7
  }

  /** Three digits that make a byte. */
  function FromOctal(s: Bytes): Option<Byte>
    requires |s| == 3
  {
    if !IsOctal(s[0]) || !IsOctal(s[1]) || !IsOctal(s[2]) then None
    else
      var n := 64 * (s[0] - ZERO) as int + 8 * (s[1] - ZERO) as int + (s[2] - ZERO) as int;
      if n < 256 then Some(n as Byte) else None
  }

  /** Digits are 0 to 7, and the largest number is 377. */
  lemma OctalExactly(s: Bytes, b: Byte)
    requires |s| == 3
    ensures FromOctal(s) == Some(b)
       <==> && (forall k :: 0 <= k < 3 ==> 48 <= s[k] <= 55)
            && b as int == (s[0] as int - 48) * 64 + (s[1] as int - 48) * 8 + (s[2] as int - 48)
    ensures FromOctal(s).Some? <==> (forall k :: 0 <= k < 3 ==> 48 <= s[k] <= 55) && s[0] <= 51
  {
    assert (forall k :: 0 <= k < 3 ==> 48 <= s[k] <= 55)
      <==> 48 <= s[0] <= 55 && 48 <= s[1] <= 55 && 48 <= s[2] <= 55;
  }

  function Escape(b: Byte): (r: Bytes)
    ensures r != []
  {
    if b == BACKSLASH then [BACKSLASH, BACKSLASH]
    else if b < 0x20 || b > 0x7e then
      [BACKSLASH, OctalDigit(b as int / 64), OctalDigit(b as int / 8 % 8), OctalDigit(b as int % 8)]
    else [b]
  }

  function EscapeEncode(v: Bytes): Bytes {
    if v == [] then [] else Escape(v[0]) + EscapeEncode(v[1..])
  }

  function EscapeDecode(s: Bytes): Option<Bytes> {
    if s == [] then Some([])
    else if s[0] != BACKSLASH then Cons(s[0], EscapeDecode(s[1..]))
    else if |s| >= 2 && s[1] == BACKSLASH then Cons(BACKSLASH, EscapeDecode(s[2..]))
    else if |s| < 4 || FromOctal(s[1..4]) == None then None
    else Cons(FromOctal(s[1..4]).value, EscapeDecode(s[4..]))
  }

  function Cons(b: Byte, rest: Option<Bytes>): Option<Bytes> {
    match rest case None => None case Some(v) => Some([b] + v)
  }

  lemma OctalRoundTrip(b: Byte)
    ensures FromOctal([OctalDigit(b as int / 64), OctalDigit(b as int / 8 % 8), OctalDigit(b as int % 8)]) == Some(b)
  {
    var n := b as int;
    assert 64 * (n / 64) + 8 * (n / 8 % 8) + n % 8 == n;
  }

  lemma EscapeOne(b: Byte, rest: Bytes)
    ensures EscapeDecode(Escape(b) + rest) == Cons(b, EscapeDecode(rest))
  {
    var s := Escape(b) + rest;
    assert s[|Escape(b)|..] == rest;
    if b != BACKSLASH && (b < 0x20 || b > 0x7e) {
      OctalRoundTrip(b);
      assert s[1..4] == [OctalDigit(b as int / 64), OctalDigit(b as int / 8 % 8), OctalDigit(b as int % 8)];
      assert s[1] != BACKSLASH;
    }
  }

  lemma {:induction false} EscapeRoundTrip(v: Bytes)
    ensures EscapeDecode(EscapeEncode(v)) == Some(v)
  {
    if v == [] {
    } else {
      var rest := EscapeEncode(v[1..]);
      EscapeRoundTrip(v[1..]);
      assert EscapeEncode(v) == Escape(v[0]) + rest;
      EscapeOne(v[0], rest);
      assert EscapeDecode(Escape(v[0]) + rest) == Some([v[0]] + v[1..]);
      assert [v[0]] + v[1..] == v;
    }
  }

  // ----- both -----

  predicate IsHex(s: Bytes) {
    |s| >= 2 && s[0] == BACKSLASH && s[1] == LOWER_X
  }

  function Decode(s: Bytes): Option<Bytes> {
    if IsHex(s) then HexDecode(s[2..]) else EscapeDecode(s)
  }

  /** Servers before 9.0 do not know the hex format. */
  function Encode(serverVersion: int, v: Bytes): Bytes {
    if serverVersion >= 90000 then [BACKSLASH, LOWER_X] + HexEncode(v) else EscapeEncode(v)
  }

  /** Both formats decode to the bytes they encode: the escape format is never taken for hex. */
  lemma ByteaRoundTrip(serverVersion: int, v: Bytes)
    ensures Decode(Encode(serverVersion, v)) == Some(v)
  {
    if serverVersion >= 90000 {
      HexRoundTrip(v);
      assert Encode(serverVersion, v)[2..] == HexEncode(v);
    } else {
      EscapeRoundTrip(v);
      assert !IsHex(EscapeEncode(v));
    }
  }

  // ----- as it runs -----

  /** The slice that is left is reassigned; raw bytes are copied in one go. */
  method ParseBytea(text: Bytes) returns (r: Option<Bytes>)
    ensures r == Decode(text)
  {
    if |text| >= 2 && text[..2] == [BACKSLASH, LOWER_X] {
      return HexDecode(text[2..]);
    }
    var s := text;
    var result: Bytes := [];
    AfterNothing(EscapeDecode(s));
    while |s| > 0
      invariant EscapeDecode(text) == After(result, EscapeDecode(s))
      invariant !IsHex(text)
      decreases |s|
    {
      if s[0] == BACKSLASH {
        if |s| >= 2 && s[1] == BACKSLASH {
          AfterCons(result, BACKSLASH, EscapeDecode(s[2..]));
          result := result + [BACKSLASH];
          s := s[2..];
          continue;
        }
        if |s| < 4 {
          return None;
        }
        var b := FromOctal(s[1..4]);
        if b == None {
          return None;
        }
        AfterCons(result, b.value, EscapeDecode(s[4..]));
        result := result + [b.value];
        s := s[4..];
      } else {
        var i := 1;
        while i < |s| && s[i] != BACKSLASH
          invariant 1 <= i <= |s|
          invariant forall k :: 0 <= k < i ==> s[k] != BACKSLASH
        {
          i := i + 1;
        }
        RawBytes(s, i);
        AfterAfter(result, s[..i], EscapeDecode(s[i..]));
        result := result + s[..i];
        s := s[i..];
      }
    }
    assert result + [] == result;
    return Some(result);
  }

  /** Bytes that are decoded, and the rest. */
  function After(done: Bytes, rest: Option<Bytes>): Option<Bytes> {
    match rest case None => None case Some(v) => Some(done + v)
  }

  lemma AfterNothing(rest: Option<Bytes>)
    ensures After([], rest) == rest
  {
    if rest.Some? {
      assert [] + rest.value == rest.value;
    }
  }

  lemma AfterCons(done: Bytes, b: Byte, rest: Option<Bytes>)
    ensures After(done, Cons(b, rest)) == After(done + [b], rest)
  {
    if rest.Some? {
      assert done + ([b] + rest.value) == done + [b] + rest.value;
    }
  }

  lemma AfterAfter(done: Bytes, more: Bytes, rest: Option<Bytes>)
    ensures After(done, After(more, rest)) == After(done + more, rest)
  {
    if rest.Some? {
      assert done + (more + rest.value) == done + more + rest.value;
    }
  }

  lemma {:induction false} RawBytes(s: Bytes, n: nat)
    requires n <= |s| && forall k :: 0 <= k < n ==> s[k] != BACKSLASH
    ensures EscapeDecode(s) == After(s[..n], EscapeDecode(s[n..]))
  {
    if n == 0 {
      assert s[0..] == s && s[..0] == [];
      AfterNothing(EscapeDecode(s));
    } else {
      var tail, rest := s[1..], EscapeDecode(s[n..]);
      RawBytes(tail, n - 1);
      assert tail[n - 1..] == s[n..];
      AfterAfter([s[0]], tail[..n - 1], rest);
      assert [s[0]] + tail[..n - 1] == s[..n];
    }
  }

  method EncodeBytea(serverVersion: int, v: Bytes) returns (result: Bytes)
    ensures result == Encode(serverVersion, v)
  {
    if serverVersion >= 90000 {
      return [BACKSLASH, LOWER_X] + HexEncode(v);
    }
    result := [];
    for i := 0 to |v|
      invariant result == EscapeEncode(v[..i])
    {
      assert v[..i + 1] == v[..i] + [v[i]];
      EscapeSnoc(v[..i], v[i]);
      var b := v[i];
      if b == BACKSLASH {
        result := result + [BACKSLASH, BACKSLASH];
      } else if b < 0x20 || b > 0x7e {
        result := result
            + [BACKSLASH, OctalDigit(b as int / 64), OctalDigit(b as int / 8 % 8), OctalDigit(b as int % 8)];
      } else {
        result := result + [b];
      }
    }
    assert v[..|v|] == v;
  }

  lemma {:induction false} EscapeSnoc(v: Bytes, b: Byte)
    ensures EscapeEncode(v + [b]) == EscapeEncode(v) + Escape(b)
  {
    if v == [] {
      assert [b][1..] == [] && EscapeEncode([]) + Escape(b) == Escape(b) + EscapeEncode([]);
    } else {
      EscapeSnoc(v[1..], b);
      assert (v + [b])[1..] == v[1..] + [b];
    }
  }
}
