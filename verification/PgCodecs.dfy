/** The array types: what Value writes, Scan reads back. An array that is None is null. */
module PgCodecs {
  import opened Common
  import opened PgArrayParser
  import opened PgArrays
  import opened PgBytea

  const LOWER_T: Byte := 116
  const LOWER_F: Byte := 102

  // ----- one-dimensional arrays -----

  function Linear(src: Bytes): Option<seq<Option<Bytes>>> {
    match Parse(src, [COMMA])
    case None => None
    case Some(p) => if |p.dims| > 1 then None else Some(p.elems)
  }

  method ScanLinearArray(src: Bytes) returns (r: Option<seq<Option<Bytes>>>)
    ensures r == Linear(src)
  {
    var p := ParseArray(src, [COMMA]);
    if p == None || |p.value.dims| > 1 {
      return None;
    }
    return Some(p.value.elems);
  }

  /** None as soon as one element is. */
  function Each<T>(xs: seq<Option<Bytes>>, f: Option<Bytes> -> Option<T>): Option<seq<T>> {
    if xs == [] then Some([])
    else
      match (Each(xs[..|xs| - 1], f), f(xs[|xs| - 1]))
      case (Some(init), Some(last)) => Some(init + [last])
      case _ => None
  }

  lemma {:induction false} EachStops<T>(xs: seq<Option<Bytes>>, f: Option<Bytes> -> Option<T>, k: nat)
    requires k < |xs| && f(xs[k]) == None
    ensures Each(xs, f) == None
  {
    if k < |xs| - 1 {
      EachStops(xs[..|xs| - 1], f, k);
    }
  }

  lemma {:induction false} EachReads<T>(vs: seq<Bytes>, f: Option<Bytes> -> Option<T>, a: seq<T>)
    requires |vs| == |a| && forall k :: 0 <= k < |a| ==> f(Some(vs[k])) == Some(a[k])
    ensures Each(Somes(vs), f) == Some(a)
  {
    if vs == [] {
    } else {
      var n := |vs| - 1;
      assert Somes(vs)[..n] == Somes(vs[..n]);
      EachReads(vs[..n], f, a[..n]);
      assert a[..n] + [a[n]] == a;
    }
  }

  // ----- strings -----

  function StringOf(elem: Option<Bytes>): Option<Bytes> {
    elem
  }

  function ScannedStrings(src: Bytes): Option<seq<Bytes>> {
    match Linear(src) case None => None case Some(elems) => Each(elems, StringOf)
  }

  function StringTexts(a: seq<Bytes>): (texts: seq<Bytes>)
    ensures |texts| == |a| && forall k :: 0 <= k < |a| ==> texts[k] == Quote(a[k])
  {
    seq(|a|, k requires 0 <= k < |a| => Quote(a[k]))
  }

  method ScanStrings(src: Option<Bytes>) returns (ok: bool, a: Option<seq<Bytes>>)
    ensures src == None ==> ok && a == None
    ensures src.Some? ==> ok == ScannedStrings(src.value).Some? && (ok ==> a == ScannedStrings(src.value))
  {
    if src == None {
      return true, None;
    }
    var elems := ScanLinearArray(src.value);
    if elems == None {
      return false, None;
    }
    var b: seq<Bytes> := [];
    for i := 0 to |elems.value|
      invariant Each(elems.value[..i], StringOf) == Some(b)
    {
      assert elems.value[..i + 1][..i] == elems.value[..i];
      if elems.value[i] == None {
        EachStops(elems.value, StringOf, i);
        return false, None;
      }
      b := b + [elems.value[i].value];
    }
    assert elems.value[..|elems.value|] == elems.value;
    return true, Some(b);
  }

  lemma Associates(a: Bytes, b: Bytes, c: Bytes)
    ensures a + (b + c) == a + b + c
  {
  }

  lemma {:induction false} EscapedConcat(a: Bytes, b: Bytes)
    ensures Escaped(a + b) == Escaped(a) + Escaped(b)
  {
    if a == [] {
      assert a + b == b;
    } else {
      EscapedConcat(a[1..], b);
      assert (a + b)[1..] == a[1..] + b;
      Associates(EscapedByte(a[0]), Escaped(a[1..]), Escaped(b));
    }
  }

  lemma {:induction false} EscapedPlain(v: Bytes)
    requires forall k :: 0 <= k < |v| ==> !NeedsEscape(v[k])
    ensures Escaped(v) == v
  {
    if v == [] {
    } else {
      EscapedPlain(v[1..]);
      assert [v[0]] + v[1..] == v;
    }
  }

  lemma EscapedSpecial(c: Byte)
    requires NeedsEscape(c)
    ensures Escaped([c]) == [BACKSLASH, c]
  {
    assert [c][1..] == [];
  }

  /** The first quote or backslash in the bytes from start on. */
  method IndexSpecial(v: Bytes, start: nat) returns (i: nat)
    requires start <= |v|
    ensures start <= i <= |v| && forall k :: start <= k < i ==> !NeedsEscape(v[k])
    ensures i < |v| ==> NeedsEscape(v[i])
  {
    i := start;
    while i < |v| && !NeedsEscape(v[i])
      invariant start <= i <= |v| && forall k :: start <= k < i ==> !NeedsEscape(v[k])
    {
      i := i + 1;
    }
  }

  /** Bytes that need no escape, after some that are done. */
  lemma EscapedMore(v: Bytes, at: nat, i: nat)
    requires at <= i <= |v| && forall k :: at <= k < i ==> !NeedsEscape(v[k])
    ensures Escaped(v[..i]) == Escaped(v[..at]) + v[at..i]
    ensures i < |v| && NeedsEscape(v[i]) ==> Escaped(v[..i + 1]) == Escaped(v[..i]) + [BACKSLASH, v[i]]
  {
    assert v[..i] == v[..at] + v[at..i];
    EscapedConcat(v[..at], v[at..i]);
    EscapedPlain(v[at..i]);
    if i < |v| && NeedsEscape(v[i]) {
      assert v[..i + 1] == v[..i] + [v[i]];
      EscapedConcat(v[..i], [v[i]]);
      EscapedSpecial(v[i]);
    }
  }

  method AppendArrayQuotedBytes(b: Bytes, v: Bytes) returns (r: Bytes)
    ensures r == b + Quote(v)
  {
    r := b + [QUOTE];
    ghost var start := r;
    var at := 0;
    while true
      invariant 0 <= at <= |v| && r == start + Escaped(v[..at])
      decreases |v| - at
    {
      var i := IndexSpecial(v, at);
      EscapedMore(v, at, i);
      Associates(start, Escaped(v[..at]), v[at..i]);
      r := r + v[at..i];
      if i == |v| {
        assert v[..i] == v;
        break;
      }
      Associates(start, Escaped(v[..i]), [BACKSLASH, v[i]]);
      r := r + [BACKSLASH, v[i]];
      at := i + 1;
    }
    Associates(b, [QUOTE], Escaped(v) + [QUOTE]);
    r := r + [QUOTE];
  }

  method StringValue(a: Option<seq<Bytes>>) returns (text: Option<Bytes>)
    ensures text == if a == None then None else Some(ArrayText(StringTexts(a.value)))
  {
    if a == None {
      return None;
    }
    var n := |a.value|;
    if n > 0 {
      var texts := StringTexts(a.value);
      var b := AppendArrayQuotedBytes([OPEN], a.value[0]);
      FirstComma(texts);
      var i := 1;
      while i < n
        invariant 1 <= i <= n && b == [OPEN] + Commas(texts[..i])[1..]
      {
        b := b + [COMMA];
        b := AppendArrayQuotedBytes(b, a.value[i]);
        CommaNext(texts, i);
        i := i + 1;
      }
      assert texts[..n] == texts;
      return Some(b + [CLOSE]);
    }
    return Some([OPEN, CLOSE]);
  }

  lemma FirstComma(texts: seq<Bytes>)
    requires texts != []
    ensures Commas(texts[..1])[1..] == texts[0]
  {
    assert texts[..1][1..] == [];
  }

  lemma CommaNext(texts: seq<Bytes>, i: nat)
    requires 0 < i < |texts|
    ensures Commas(texts[..i + 1])[1..] == Commas(texts[..i])[1..] + [COMMA] + texts[i]
  {
    assert texts[..i + 1] == texts[..i] + [texts[i]];
    CommasSnoc(texts[..i], texts[i]);
  }

  /** Every array of strings comes back: quotes, backslashes, empty strings, NULL and all. */
  lemma StringRoundTrip(a: seq<Bytes>)
    ensures ScannedStrings(ArrayText(StringTexts(a))) == Some(a)
  {
    ArrayTextParses(StringTexts(a), a);
    EachReads(a, StringOf, a);
  }

  // ----- booleans -----

  function BoolOf(elem: Option<Bytes>): Option<bool> {
    if elem == Some([LOWER_T]) then Some(true) else if elem == Some([LOWER_F]) then Some(false) else None
  }

  function ScannedBools(src: Bytes): Option<seq<bool>> {
    match Linear(src) case None => None case Some(elems) => Each(elems, BoolOf)
  }

  function BoolTexts(a: seq<bool>): (texts: seq<Bytes>)
    ensures |texts| == |a| && forall k :: 0 <= k < |a| ==> texts[k] == [if a[k] then LOWER_T else LOWER_F]
  {
    seq(|a|, k requires 0 <= k < |a| => [if a[k] then LOWER_T else LOWER_F])
  }

  method ScanBools(src: Option<Bytes>) returns (ok: bool, a: Option<seq<bool>>)
    ensures src == None ==> ok && a == None
    ensures src.Some? ==> ok == ScannedBools(src.value).Some? && (ok ==> a == ScannedBools(src.value))
  {
    if src == None {
      return true, None;
    }
    var elems := ScanLinearArray(src.value);
    if elems == None {
      return false, None;
    }
    var b: seq<bool> := [];
    for i := 0 to |elems.value|
      invariant Each(elems.value[..i], BoolOf) == Some(b)
    {
      assert elems.value[..i + 1][..i] == elems.value[..i];
      var v := elems.value[i];
      if v == None || |v.value| != 1 || (v.value[0] != LOWER_T && v.value[0] != LOWER_F) {
        EachStops(elems.value, BoolOf, i);
        return false, None;
      }
      assert v.value == [v.value[0]];
      b := b + [v.value[0] == LOWER_T];
    }
    assert elems.value[..|elems.value|] == elems.value;
    return true, Some(b);
  }

  /** The brackets, in place of the first comma and at the end. */
  method Brackets(b: array<Byte>)
    requires b.Length >= 2
    modifies b
    ensures b[..] == [OPEN] + old(b[..b.Length - 1])[1..] + [CLOSE]
  {
    ghost var filled := b[..b.Length - 1];
    b[0] := OPEN;
    b[b.Length - 1] := CLOSE;
    assert b[1..b.Length - 1] == filled[1..];
  }

  /** The commas and letters fill the buffer but for its last byte; the brackets then take the
      place of the first comma and of that byte. */
  method BoolValue(a: Option<seq<bool>>) returns (text: Option<Bytes>)
    ensures text == if a == None then None else Some(ArrayText(BoolTexts(a.value)))
  {
    if a == None {
      return None;
    }
    var n := |a.value|;
    if n > 0 {
      ghost var texts := BoolTexts(a.value);
      var b := new Byte[1 + 2 * n];
      assert texts[..0] == [];
      for i := 0 to n
        invariant b[..2 * i] == Commas(texts[..i])
      {
        ghost var before := b[..2 * i];
        b[2 * i] := COMMA;
        b[1 + 2 * i] := if a.value[i] then LOWER_T else LOWER_F;
        assert b[..2 * i] == before;
        assert b[..2 * (i + 1)] == before + [COMMA] + texts[i];
        assert texts[..i + 1] == texts[..i] + [texts[i]];
        CommasSnoc(texts[..i], texts[i]);
      }
      assert texts[..n] == texts;
      Brackets(b);
      return Some(b[..]);
    }
    return Some([OPEN, CLOSE]);
  }

  lemma BoolRoundTrip(a: seq<bool>)
    ensures ScannedBools(ArrayText(BoolTexts(a))) == Some(a)
  {
    var texts := BoolTexts(a);
    forall k | 0 <= k < |a| ensures Denotes(texts[k], texts[k]) {
      assert |NULL| == 4;
    }
    ArrayTextParses(texts, texts);
    EachReads(texts, BoolOf, a);
  }

  // ----- bytea -----

  function ByteaOf(elem: Option<Bytes>): Option<Bytes> {
    Decode(if elem.Some? then elem.value else [])
  }

  function ScannedByteas(src: Bytes): Option<seq<Bytes>> {
    match Linear(src) case None => None case Some(elems) => Each(elems, ByteaOf)
  }

  function ByteaText(v: Bytes): Bytes {
    [QUOTE, BACKSLASH, BACKSLASH, LOWER_X] + HexEncode(v) + [QUOTE]
  }

  function ByteaTexts(a: seq<Bytes>): (texts: seq<Bytes>)
    ensures |texts| == |a| && forall k :: 0 <= k < |a| ==> texts[k] == ByteaText(a[k])
  {
    seq(|a|, k requires 0 <= k < |a| => ByteaText(a[k]))
  }

  method ScanByteas(src: Option<Bytes>) returns (ok: bool, a: Option<seq<Bytes>>)
    ensures src == None ==> ok && a == None
    ensures src.Some? ==> ok == ScannedByteas(src.value).Some? && (ok ==> a == ScannedByteas(src.value))
  {
    if src == None {
      return true, None;
    }
    var elems := ScanLinearArray(src.value);
    if elems == None {
      return false, None;
    }
    var b: seq<Bytes> := [];
    for i := 0 to |elems.value|
      invariant Each(elems.value[..i], ByteaOf) == Some(b)
    {
      assert elems.value[..i + 1][..i] == elems.value[..i];
      var v := ParseBytea(if elems.value[i].Some? then elems.value[i].value else []);
      if v == None {
        EachStops(elems.value, ByteaOf, i);
        return false, None;
      }
      b := b + [v.value];
    }
    assert elems.value[..|elems.value|] == elems.value;
    return true, Some(b);
  }

  /** The bytes that n values take in the buffer, with their quotes, formatting and commas. */
  function Filled(a: seq<Bytes>, n: nat): nat
    requires n <= |a|
  {
    if n == 0 then 0 else Filled(a, n - 1) + 6 + 2 * |a[n - 1]|
  }

  lemma {:induction false} FilledGrows(a: seq<Bytes>, m: nat, n: nat)
    requires m <= n <= |a|
    ensures Filled(a, m) <= Filled(a, n)
  {
    if m < n {
      FilledGrows(a, m, n - 1);
    }
  }

  /** Two brackets, and for each value its digits, quotes, formatting and delimiter. */
  method Size(a: seq<Bytes>) returns (size: nat)
    ensures size == 1 + Filled(a, |a|)
  {
    size := 1 + 6 * |a|;
    for i := 0 to |a|
      invariant size == 1 + 6 * (|a| - i) + Filled(a, i)
    {
      size := size + 2 * |a[i]|;
    }
  }

  /** The values fill the buffer exactly, but for its last byte. */
  method FillByteas(b: array<Byte>, a: seq<Bytes>)
    requires b.Length == 1 + Filled(a, |a|)
    modifies b
    ensures b[..b.Length - 1] == Commas(ByteaTexts(a))
  {
    ghost var texts := ByteaTexts(a);
    var s := 0;
    FilledGrows(a, 0, |a|);
    assert texts[..0] == [];
    for i := 0 to |a|
      invariant s == Filled(a, i) <= b.Length - 1
      invariant b[..s] == Commas(texts[..i])
    {
      FilledGrows(a, i + 1, |a|);
      CommasUpTo(texts, i);
      s := CopyElement(b, s, a[i]);
    }
    assert texts[..|a|] == texts;
  }

  lemma CommasUpTo(texts: seq<Bytes>, i: nat)
    requires i < |texts|
    ensures Commas(texts[..i + 1]) == Commas(texts[..i]) + [COMMA] + texts[i]
  {
    assert texts[..i + 1] == texts[..i] + [texts[i]];
    CommasSnoc(texts[..i], texts[i]);
  }

  method ByteaValue(a: Option<seq<Bytes>>) returns (text: Option<Bytes>)
    ensures text == if a == None then None else Some(ArrayText(ByteaTexts(a.value)))
  {
    if a == None {
      return None;
    }
    if |a.value| > 0 {
      FilledGrows(a.value, 1, |a.value|);
      var size := Size(a.value);
      var b := new Byte[size];
      FillByteas(b, a.value);
      Brackets(b);
      return Some(b[..]);
    }
    return Some([OPEN, CLOSE]);
  }

  /** The digits of a value, from s on. */
  method EncodeInto(b: array<Byte>, s: nat, v: Bytes) returns (o: nat)
    requires s + 2 * |v| <= b.Length
    modifies b
    ensures o == s + 2 * |v| && b[..o] == old(b[..s]) + HexEncode(v)
  {
    o := s;
    for i := 0 to |v|
      invariant o == s + 2 * i
      invariant b[..o] == old(b[..s]) + HexEncode(v[..i])
    {
      ghost var done := b[..o];
      b[o] := HexDigit(v[i] as int / 16);
      b[o + 1] := HexDigit(v[i] as int % 16);
      o := o + 2;
      assert b[..o] == done + [HexDigit(v[i] as int / 16), HexDigit(v[i] as int % 16)];
      assert v[..i + 1] == v[..i] + [v[i]];
      HexSnoc(v[..i], v[i]);
    }
    assert v[..|v|] == v;
  }

  /** One value with its comma, from s on. */
  method CopyElement(b: array<Byte>, s: nat, v: Bytes) returns (o: nat)
    requires s + 6 + 2 * |v| <= b.Length
    modifies b
    ensures o == s + 6 + 2 * |v|
    ensures b[..o] == old(b[..s]) + [COMMA] + ByteaText(v)
  {
    ghost var before := b[..s];
    b[s], b[s + 1], b[s + 2], b[s + 3], b[s + 4] := COMMA, QUOTE, BACKSLASH, BACKSLASH, LOWER_X;
    assert b[..s + 5] == before + [COMMA, QUOTE, BACKSLASH, BACKSLASH, LOWER_X];
    o := EncodeInto(b, s + 5, v);
    ghost var done := b[..o];
    b[o] := QUOTE;
    o := o + 1;
    assert b[..o] == done + [QUOTE];
  }

  lemma {:induction false} HexSnoc(v: Bytes, b: Byte)
    ensures HexEncode(v + [b]) == HexEncode(v) + [HexDigit(b as int / 16), HexDigit(b as int % 16)]
  {
    if v == [] {
      assert [b][1..] == [];
    } else {
      HexSnoc(v[1..], b);
      assert (v + [b])[1..] == v[1..] + [b];
    }
  }

  lemma {:induction false} HexDigitsOnly(v: Bytes, k: nat)
    requires k < |HexEncode(v)|
    ensures !NeedsEscape(HexEncode(v)[k])
  {
    if k >= 2 {
      HexDigitsOnly(v[1..], k - 2);
    }
  }

  lemma EscapedTail(tail: Bytes)
    requires forall k :: 0 <= k < |tail| ==> !NeedsEscape(tail[k])
    ensures Escaped([BACKSLASH] + tail) == [BACKSLASH, BACKSLASH] + tail
  {
    EscapedPlain(tail);
    EscapedSpecial(BACKSLASH);
    EscapedConcat([BACKSLASH], tail);
  }

  lemma ByteaTextDenotes(v: Bytes)
    ensures ByteaText(v) == Quote([BACKSLASH, LOWER_X] + HexEncode(v))
  {
    var tail := [LOWER_X] + HexEncode(v);
    forall k | 0 <= k < |tail| ensures !NeedsEscape(tail[k]) {
      if k > 0 {
        HexDigitsOnly(v, k - 1);
      }
    }
    EscapedTail(tail);
    assert [BACKSLASH] + tail == [BACKSLASH, LOWER_X] + HexEncode(v);
  }

  lemma ByteaArrayRoundTrip(a: seq<Bytes>)
    ensures ScannedByteas(ArrayText(ByteaTexts(a))) == Some(a)
  {
    var texts := ByteaTexts(a);
    var vs := seq(|a|, k requires 0 <= k < |a| => Encode(90000, a[k]));
    forall k | 0 <= k < |a| ensures Denotes(texts[k], vs[k]) {
      ByteaTextDenotes(a[k]);
    }
    ArrayTextParses(texts, vs);
    forall k | 0 <= k < |a| ensures ByteaOf(Some(vs[k])) == Some(a[k]) {
      ByteaRoundTrip(90000, a[k]);
    }
    EachReads(vs, ByteaOf, a);
  }

  // ----- nulls and arrays of arrays -----

  /** An array of arrays is refused. */
  lemma NestedIsRefused(n: Nested, depth: nat)
    requires depth > 1 && Shaped(n, depth)
    ensures Linear(Text(n)) == None
  {
    NestedParsesExactly(n, depth);
    LengthsOf(n, depth);
  }

  /** A null among strings or booleans is refused. */
  lemma NullIsRefused(texts: seq<Bytes>, vs: seq<Option<Bytes>>, k: nat)
    requires AllStandFor(texts, vs) && k < |vs| && vs[k] == None
    ensures ScannedStrings(ArrayText(texts)) == None && ScannedBools(ArrayText(texts)) == None
  {
    ElementsParse(texts, vs);
    EachStops(vs, StringOf, k);
    EachStops(vs, BoolOf, k);
  }

  lemma {:induction false} EachByteas(vs: seq<Option<Bytes>>, a: seq<Bytes>)
    requires |vs| == |a| && forall k :: 0 <= k < |a| ==> ByteaOf(vs[k]) == Some(a[k])
    ensures Each(vs, ByteaOf) == Some(a)
  {
    if vs == [] {
    } else {
      var n := |vs| - 1;
      EachByteas(vs[..n], a[..n]);
      assert a[..n] + [a[n]] == a;
    }
  }

  /** A null among bytea values is read as one without bytes, so that it is lost. */
  lemma NullIsEmptyBytea(texts: seq<Bytes>, vs: seq<Option<Bytes>>, a: seq<Bytes>)
    requires AllStandFor(texts, vs) && |a| == |vs|
    requires forall k :: 0 <= k < |a| ==> if vs[k] == None then a[k] == [] else Decode(vs[k].value) == Some(a[k])
    ensures ScannedByteas(ArrayText(texts)) == Some(a)
  {
    ElementsParse(texts, vs);
    EachByteas(vs, a);
  }
}
