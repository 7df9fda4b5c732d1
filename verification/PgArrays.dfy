/** Arrays written as text, and read back: elements, and arrays of arrays. */
module PgArrays {
  import opened Common
  import opened PgArrayParser

  // ----- the text of an array -----

  /** Each element with a comma before it. */
  function Commas(texts: seq<Bytes>): (r: Bytes)
    ensures texts != [] ==> r != [] && r[0] == COMMA
  {
    if texts == [] then [] else [COMMA] + texts[0] + Commas(texts[1..])
  }

  function ArrayText(texts: seq<Bytes>): Bytes {
    if texts == [] then [OPEN, CLOSE] else [OPEN] + Commas(texts)[1..] + [CLOSE]
  }

  lemma {:induction false} CommasSnoc(texts: seq<Bytes>, text: Bytes)
    ensures Commas(texts + [text]) == Commas(texts) + [COMMA] + text
  {
    if texts == [] {
      assert [text][1..] == [];
    } else {
      CommasSnoc(texts[1..], text);
      assert (texts + [text])[1..] == texts[1..] + [text];
    }
  }

  predicate NeedsEscape(c: Byte) {
    c == QUOTE || c == BACKSLASH
  }

  function EscapedByte(c: Byte): Bytes {
    if NeedsEscape(c) then [BACKSLASH, c] else [c]
  }

  /** The bytes with a backslash before each quote and backslash. */
  function Escaped(v: Bytes): Bytes {
    if v == [] then [] else EscapedByte(v[0]) + Escaped(v[1..])
  }

  function Quote(v: Bytes): Bytes {
    [QUOTE] + Escaped(v) + [QUOTE]
  }

  /** A text that needs no quotes. */
  predicate IsBare(text: Bytes) {
    && text != [] && text[0] != OPEN && text[0] != QUOTE && text != NULL
    && forall k :: 0 <= k < |text| ==> text[k] != COMMA && text[k] != CLOSE
  }

  /** The text stands for the element. */
  predicate Denotes(text: Bytes, v: Bytes) {
    text == Quote(v) || (IsBare(text) && text == v)
  }

  predicate AllDenote(texts: seq<Bytes>, vs: seq<Bytes>) {
    |texts| == |vs| && forall k :: 0 <= k < |vs| ==> Denotes(texts[k], vs[k])
  }

  // ----- reading an element -----

  /** The text from i on. */
  predicate At(src: Bytes, i: nat, text: Bytes) {
    i <= |src| && src[i..] == text
  }

  lemma AtNext(src: Bytes, i: nat, a: Bytes, b: Bytes)
    requires At(src, i, a + b)
    ensures At(src, i + |a|, b)
    ensures forall k :: 0 <= k < |a| ==> src[i + k] == a[k]
  {
    assert src[i + |a|..] == src[i..][|a|..];
    forall k | 0 <= k < |a| ensures src[i + k] == a[k] {
      assert src[i + k] == src[i..][k];
    }
  }

  lemma {:induction false} QuotedReads(src: Bytes, i: nat, acc: Bytes, v: Bytes, rest: Bytes)
    requires At(src, i, Escaped(v) + [QUOTE] + rest)
    ensures Quoted(src, i, acc, false) == (i + |Escaped(v)| + 1, Some(acc + v))
    decreases |v|
  {
    if v == [] {
      assert Escaped(v) + [QUOTE] + rest == [QUOTE] + rest;
      AtNext(src, i, [QUOTE], rest);
      assert acc + v == acc;
    } else {
      var first := EscapedByte(v[0]);
      assert Escaped(v) + [QUOTE] + rest == first + (Escaped(v[1..]) + [QUOTE] + rest);
      AtNext(src, i, first, Escaped(v[1..]) + [QUOTE] + rest);
      assert src[i] == first[0] && (|first| == 2 ==> src[i + 1] == first[1]);
      QuotedReads(src, i + |first|, acc + [v[0]], v[1..], rest);
      assert acc + v == acc + [v[0]] + v[1..];
    }
  }

  lemma {:induction false} BareReads(src: Bytes, i: nat, text: Bytes, rest: Bytes)
    requires At(src, i, text + rest) && rest != [] && (rest[0] == COMMA || rest[0] == CLOSE)
    requires forall k :: 0 <= k < |text| ==> text[k] != COMMA && text[k] != CLOSE
    ensures Bare(src, [COMMA], i) == i + |text|
    decreases |text|
  {
    if text == [] {
      assert text + rest == rest;
      assert src[i] == src[i..][0];
      assert rest[0] == COMMA ==> src[i..i + 1] == [COMMA];
    } else {
      AtNext(src, i, text, rest);
      assert src[i] == text[0];
      assert src[i + 1..] == src[i..][1..] == text[1..] + rest;
      BareReads(src, i + 1, text[1..], rest);
      assert src[i..i + 1] == [src[i]];
    }
  }

  lemma QuotedElementReads(src: Bytes, s: State, v: Bytes, rest: Bytes)
    requires Valid(src, s) && s.depth == |s.dims| && At(src, s.i, Quote(v) + rest)
    ensures ReadElement(src, [COMMA], s) == Some(s.(i := s.i + |Quote(v)|, elems := s.elems + [Some(v)]))
  {
    assert Quote(v) + rest == [QUOTE] + (Escaped(v) + [QUOTE] + rest);
    AtNext(src, s.i, [QUOTE], Escaped(v) + [QUOTE] + rest);
    assert src[s.i] == QUOTE;
    QuotedReads(src, s.i + 1, [], v, rest);
    assert [] + v == v;
  }

  /** The element ends where this begins. */
  predicate Ends(rest: Bytes) {
    rest != [] && (rest[0] == COMMA || rest[0] == CLOSE)
  }

  lemma BareElementReads(src: Bytes, s: State, text: Bytes, rest: Bytes)
    requires Valid(src, s) && s.depth == |s.dims| && At(src, s.i, text + rest)
    requires (IsBare(text) || text == NULL) && Ends(rest)
    ensures ReadElement(src, [COMMA], s)
         == Some(s.(i := s.i + |text|, elems := s.elems + [if text == NULL then None else Some(text)]))
  {
    AtNext(src, s.i, text, rest);
    assert src[s.i] == text[0];
    BareReads(src, s.i, text, rest);
    assert src[s.i..s.i + |text|] == text;
  }

  /** The text stands for the element, which is none for NULL without quotes. */
  predicate StandsFor(text: Bytes, v: Option<Bytes>) {
    match v case None => text == NULL case Some(w) => Denotes(text, w)
  }

  /** One element, whatever follows it. */
  lemma ElementReads(src: Bytes, s: State, text: Bytes, v: Option<Bytes>, rest: Bytes)
    requires Valid(src, s) && s.depth == |s.dims| && At(src, s.i, text + rest)
    requires StandsFor(text, v) && Ends(rest)
    ensures ReadElement(src, [COMMA], s) == Some(s.(i := s.i + |text|, elems := s.elems + [v]))
    ensures At(src, s.i + |text|, rest)
  {
    AtNext(src, s.i, text, rest);
    if v.Some? && text == Quote(v.value) {
      QuotedElementReads(src, s, v.value, rest);
    } else {
      BareElementReads(src, s, text, rest);
    }
  }

  // ----- arrays of arrays -----

  /** An element with its text, or an array. */
  datatype Nested = Leaf(text: Bytes, v: Option<Bytes>) | Node(items: seq<Nested>)

  function Text(n: Nested): Bytes
    decreases n, 0
  {
    match n
    case Leaf(text, _) => text
    case Node(items) => [OPEN] + Inner(items) + [CLOSE]
  }

  function Inner(items: seq<Nested>): Bytes
    decreases items
  {
    if items == [] then []
    else if |items| == 1 then Text(items[0])
    else Text(items[0]) + [COMMA] + Inner(items[1..])
  }

  /** All elements are as deep, and no array is empty; but arrays beside one another may differ in length. */
  predicate Shaped(n: Nested, depth: nat)
    decreases n, 0
  {
    match n
    case Leaf(text, v) => depth == 0 && StandsFor(text, v)
    case Node(items) => depth > 0 && items != [] && AllShaped(items, depth - 1)
  }

  predicate AllShaped(items: seq<Nested>, depth: nat)
    decreases items
  {
    items != [] ==> Shaped(items[0], depth) && AllShaped(items[1..], depth)
  }

  /** The elements in order. */
  function Elems(n: Nested): seq<Option<Bytes>>
    decreases n, 0
  {
    match n
    case Leaf(_, v) => [v]
    case Node(items) => AllElems(items)
  }

  function AllElems(items: seq<Nested>): seq<Option<Bytes>>
    decreases items
  {
    if items == [] then [] else Elems(items[0]) + AllElems(items[1..])
  }

  /** The length of the array, of its last array, of the last array in that, and so on. */
  function LastLengths(n: Nested): seq<nat>
    decreases n
  {
    match n
    case Leaf(_, _) => []
    case Node(items) => if items == [] then [0] else [|items|] + LastLengths(items[|items| - 1])
  }

  lemma {:induction false} LastIsShaped(items: seq<Nested>, depth: nat)
    requires items != [] && AllShaped(items, depth)
    ensures Shaped(items[|items| - 1], depth)
  {
    if |items| > 1 {
      LastIsShaped(items[1..], depth);
    }
  }

  lemma {:induction false} LengthsOf(n: Nested, depth: nat)
    requires Shaped(n, depth)
    ensures |LastLengths(n)| == depth && forall k :: 0 <= k < depth ==> LastLengths(n)[k] > 0
    decreases n
  {
    if n.Node? {
      LastIsShaped(n.items, depth - 1);
      LengthsOf(n.items[|n.items| - 1], depth - 1);
    }
  }

  /** The parser's variables after an element or array. */
  function Past(s: State, n: Nested): State
    requires s.depth <= |s.dims|
  {
    State(s.i + |Text(n)|, s.depth, s.dims[..s.depth] + LastLengths(n), s.elems + Elems(n))
  }

  /** And after the last of some items, and the bracket that closes their array. */
  function PastAll(s: State, items: seq<Nested>): State
    requires 0 < s.depth <= |s.dims| && items != []
  {
    var d := s.depth - 1;
    State(s.i + |Inner(items)| + 1, d, s.dims[..d] + [s.dims[d] + |items|] + LastLengths(items[|items| - 1]),
          s.elems + AllElems(items))
  }

  /** The variables after a bracket that opens. */
  function Opened(s: State): State
    requires s.depth < |s.dims|
  {
    s.(i := s.i + 1, depth := s.depth + 1, dims := s.dims[s.depth := 0])
  }

  /** After a comma: one more item is counted. */
  function Counted(s: State): State
    requires 0 < s.depth <= |s.dims|
  {
    s.(i := s.i + 1, dims := s.dims[s.depth - 1 := s.dims[s.depth - 1] + 1])
  }

  /** After a bracket that closes. */
  function Closed(s: State): State
    requires 0 < s.depth <= |s.dims|
  {
    Counted(s).(depth := s.depth - 1)
  }

  lemma OpenReads(src: Bytes, s: State, rest: Bytes)
    requires Valid(src, s) && s.depth < |s.dims| && At(src, s.i, [OPEN] + rest)
    ensures var t := Opened(s);
      && Valid(src, t) && At(src, t.i, rest)
      && FromElement(src, [COMMA], s) == FromElement(src, [COMMA], t)
  {
    AtNext(src, s.i, [OPEN], rest);
    assert src[s.i] == OPEN;
  }

  lemma CloseReads(src: Bytes, s: State, rest: Bytes)
    requires Valid(src, s) && s.depth > 0 && At(src, s.i, [CLOSE] + rest)
    ensures var t := Closed(s);
      && Valid(src, t) && At(src, t.i, rest)
      && AfterElement(src, [COMMA], s) == AfterElement(src, [COMMA], t)
  {
    AtNext(src, s.i, [CLOSE], rest);
    assert src[s.i] == CLOSE;
    assert src[s.i..s.i + 1][0] == CLOSE;
  }

  lemma CommaReads(src: Bytes, s: State, rest: Bytes)
    requires Valid(src, s) && s.depth > 0 && At(src, s.i, [COMMA] + rest)
    ensures var t := Counted(s);
      && Valid(src, t) && At(src, t.i, rest)
      && AfterElement(src, [COMMA], s) == FromElement(src, [COMMA], t)
  {
    AtNext(src, s.i, [COMMA], rest);
    assert src[s.i] == COMMA;
    assert src[s.i..s.i + 1] == [COMMA];
  }

  lemma LeafReads(src: Bytes, s: State, n: Nested, rest: Bytes)
    requires Valid(src, s) && s.depth == |s.dims| && n.Leaf? && Shaped(n, 0)
    requires At(src, s.i, Text(n) + rest) && Ends(rest)
    ensures Valid(src, Past(s, n)) && At(src, Past(s, n).i, rest)
    ensures FromElement(src, [COMMA], s) == AfterElement(src, [COMMA], Past(s, n))
  {
    ElementReads(src, s, n.text, n.v, rest);
    assert s.dims[..s.depth] + [] == s.dims;
  }

  lemma PastIsValid(src: Bytes, s: State, n: Nested, depth: nat, rest: Bytes)
    requires Valid(src, s) && s.depth + depth == |s.dims| && Shaped(n, depth) && At(src, s.i, Text(n) + rest)
    ensures Valid(src, Past(s, n)) && At(src, Past(s, n).i, rest)
  {
    LengthsOf(n, depth);
    AtNext(src, s.i, Text(n), rest);
  }

  /** An element or array is read to its end, at any depth. */
  lemma {:induction false} NestedReads(src: Bytes, s: State, n: Nested, depth: nat, rest: Bytes)
    requires Valid(src, s) && s.depth + depth == |s.dims| && Shaped(n, depth)
    requires At(src, s.i, Text(n) + rest) && (depth == 0 ==> Ends(rest))
    ensures Valid(src, Past(s, n)) && At(src, Past(s, n).i, rest)
    ensures FromElement(src, [COMMA], s) == AfterElement(src, [COMMA], Past(s, n))
    decreases n, 0
  {
    match n
    case Leaf(_, _) => LeafReads(src, s, n, rest);
    case Node(items) =>
      assert Text(n) + rest == [OPEN] + (Inner(items) + ([CLOSE] + rest));
      OpenReads(src, s, Inner(items) + ([CLOSE] + rest));
      ItemsRead(src, Opened(s), items, depth - 1, rest);
      NodeIsPast(s, items);
  }

  lemma NodeIsPast(s: State, items: seq<Nested>)
    requires s.depth < |s.dims| && items != []
    ensures PastAll(Opened(s), items) == Past(s, Node(items))
  {
    var t := Opened(s);
    assert t.dims[..s.depth] == s.dims[..s.depth] && t.dims[s.depth] == 0;
    assert s.dims[..s.depth] + [|items|] + LastLengths(items[|items| - 1])
        == s.dims[..s.depth] + LastLengths(Node(items));
    assert |Text(Node(items))| == 1 + |Inner(items)| + 1;
  }

  /** The items of an array are read, and its closing bracket. */
  lemma {:induction false} ItemsRead(src: Bytes, s: State, items: seq<Nested>, depth: nat, rest: Bytes)
    requires Valid(src, s) && s.depth > 0 && s.depth + depth == |s.dims| && items != [] && AllShaped(items, depth)
    requires At(src, s.i, Inner(items) + ([CLOSE] + rest))
    ensures Valid(src, PastAll(s, items)) && At(src, PastAll(s, items).i, rest)
    ensures FromElement(src, [COMMA], s) == AfterElement(src, [COMMA], PastAll(s, items))
    decreases items, 1
  {
    if |items| == 1 {
      NestedReads(src, s, items[0], depth, [CLOSE] + rest);
      CloseReads(src, Past(s, items[0]), rest);
      LastItem(s, items);
    } else {
      var more := [COMMA] + (Inner(items[1..]) + ([CLOSE] + rest));
      InnerSplits(items, rest);
      NestedReads(src, s, items[0], depth, more);
      CommaReads(src, Past(s, items[0]), Inner(items[1..]) + ([CLOSE] + rest));
      LengthsOf(items[0], depth);
      ItemsRead(src, Counted(Past(s, items[0])), items[1..], depth, rest);
      NextItem(s, items);
    }
  }

  lemma InnerSplits(items: seq<Nested>, rest: Bytes)
    requires |items| > 1
    ensures Inner(items) + ([CLOSE] + rest)
         == Text(items[0]) + ([COMMA] + (Inner(items[1..]) + ([CLOSE] + rest)))
  {
  }

  lemma LastItem(s: State, items: seq<Nested>)
    requires 0 < s.depth <= |s.dims| && |items| == 1
    ensures Closed(Past(s, items[0])) == PastAll(s, items)
  {
    assert items[1..] == [] && AllElems(items) == Elems(items[0]) + [] == Elems(items[0]);
    PastCounted(s, items[0]);
    assert Closed(Past(s, items[0])).dims == PastAll(s, items).dims;
  }

  lemma PastCounted(s: State, n: Nested)
    requires 0 < s.depth <= |s.dims|
    ensures var d := s.depth - 1;
      Counted(Past(s, n)).dims == s.dims[..d] + [s.dims[d] + 1] + LastLengths(n)
  {
    var d := s.depth - 1;
    assert s.dims[..s.depth] == s.dims[..d] + [s.dims[d]];
    assert Past(s, n).dims == s.dims[..d] + [s.dims[d]] + LastLengths(n);
  }

  lemma NextItem(s: State, items: seq<Nested>)
    requires 0 < s.depth <= |s.dims| && |items| > 1
    ensures PastAll(Counted(Past(s, items[0])), items[1..]) == PastAll(s, items)
  {
    var d, rest, t := s.depth - 1, items[1..], Counted(Past(s, items[0]));
    PastCounted(s, items[0]);
    assert t.dims[..d] == s.dims[..d] && t.dims[d] == s.dims[d] + 1;
    assert rest[|rest| - 1] == items[|items| - 1];
    assert s.elems + Elems(items[0]) + AllElems(rest) == s.elems + AllElems(items);
    assert |Inner(items)| == |Text(items[0])| + 1 + |Inner(rest)|;
  }

  // ----- the whole text -----

  lemma LeafStarts(n: Nested)
    requires n.Leaf? && Shaped(n, 0)
    ensures n.text != [] && n.text[0] != OPEN && n.text[0] != CLOSE
  {
  }

  /** The variables when all brackets before the first element are open. */
  function AllOpened(s: State): State
    requires s.depth <= |s.dims|
  {
    var more := |s.dims| - s.depth;
    State(s.i + more, |s.dims|, s.dims[..s.depth] + seq(more, _ => 0), s.elems)
  }

  lemma AllOpenedNext(s: State)
    requires s.depth <= |s.dims|
    ensures s.depth == |s.dims| ==> AllOpened(s) == s
    ensures s.depth < |s.dims| ==> AllOpened(Opened(s)) == AllOpened(s)
  {
    if s.depth < |s.dims| {
      assert AllOpened(Opened(s)).dims == AllOpened(s).dims;
    } else {
      assert AllOpened(s).dims == s.dims;
    }
  }

  lemma FirstOf(items: seq<Nested>, rest: Bytes) returns (more: Bytes)
    requires items != []
    ensures Text(Node(items)) + rest == [OPEN] + (Text(items[0]) + more)
  {
    more := if |items| == 1 then [CLOSE] + rest else [COMMA] + (Inner(items[1..]) + ([CLOSE] + rest));
  }

  /** The brackets that open the text are as many as it is deep. */
  lemma {:induction false} OpeningReads(src: Bytes, s: State, n: Nested, depth: nat, rest: Bytes)
    requires Valid(src, s) && s.depth + depth == |s.dims| && Shaped(n, depth) && At(src, s.i, Text(n) + rest)
    ensures Opening(src, s.i) == s.i + depth < |src| && src[s.i + depth] != CLOSE
    ensures Valid(src, AllOpened(s)) && FromElement(src, [COMMA], s) == FromElement(src, [COMMA], AllOpened(s))
    decreases n
  {
    AllOpenedNext(s);
    match n
    case Leaf(text, _) =>
      LeafStarts(n);
      AtNext(src, s.i, text, rest);
      assert src[s.i + 0] == text[0];
    case Node(items) =>
      var more := FirstOf(items, rest);
      OpenReads(src, s, Text(items[0]) + more);
      AtNext(src, s.i, [OPEN], Text(items[0]) + more);
      assert src[s.i + 0] == OPEN;
      OpeningReads(src, Opened(s), items[0], depth - 1, more);
  }

  predicate DividesAll(lengths: seq<nat>, count: nat) {
    forall k :: 0 <= k < |lengths| && lengths[k] > 0 ==> count % lengths[k] == 0
  }

  /** An array of any depth is read as its elements in order, with the lengths of the last arrays, exactly if each of
      them divides the number of elements. */
  lemma NestedParsesExactly(n: Nested, depth: nat)
    requires depth > 0 && Shaped(n, depth)
    ensures Parse(Text(n), [COMMA])
         == if DividesAll(LastLengths(n), |Elems(n)|) then Some(Parsed(LastLengths(n), Elems(n))) else None
  {
    var src, s := Text(n), State(0, 0, seq(depth, _ => 1), []);
    assert src + [] == src && src[0..] == src;
    assert At(src, 0, Text(n) + []);
    OpeningReads(src, s, n, depth, []);
    NestedReads(src, s, n, depth, []);
    LengthsOf(n, depth);
    assert AllOpened(s) == State(depth, depth, seq(depth, _ => 0), []);
    assert [] + LastLengths(n) == LastLengths(n) && [] + Elems(n) == Elems(n);
    assert Past(s, n) == State(|src|, 0, LastLengths(n), Elems(n));
  }

  // ----- arrays of one dimension -----

  function Leaves(texts: seq<Bytes>, vs: seq<Option<Bytes>>): (items: seq<Nested>)
    requires |texts| == |vs|
    ensures |items| == |texts|
  {
    if texts == [] then [] else [Leaf(texts[0], vs[0])] + Leaves(texts[1..], vs[1..])
  }

  predicate AllStandFor(texts: seq<Bytes>, vs: seq<Option<Bytes>>) {
    |texts| == |vs| && forall k :: 0 <= k < |vs| ==> StandsFor(texts[k], vs[k])
  }

  lemma {:induction false} LeavesOf(texts: seq<Bytes>, vs: seq<Option<Bytes>>)
    requires AllStandFor(texts, vs)
    ensures AllShaped(Leaves(texts, vs), 0) && AllElems(Leaves(texts, vs)) == vs
    ensures texts != [] ==> Leaves(texts, vs)[|texts| - 1].Leaf?
  {
    if texts == [] {
    } else {
      LeavesOf(texts[1..], vs[1..]);
      var items := Leaves(texts, vs);
      assert items[1..] == Leaves(texts[1..], vs[1..]) && items[0] == Leaf(texts[0], vs[0]);
      assert [vs[0]] + vs[1..] == vs;
      if |texts| > 1 {
        assert items[|items| - 1] == items[1..][|items| - 2];
      }
    }
  }

  lemma {:induction false} LeavesText(texts: seq<Bytes>, vs: seq<Option<Bytes>>)
    requires |texts| == |vs| > 0
    ensures Commas(texts) == [COMMA] + Inner(Leaves(texts, vs))
  {
    var items := Leaves(texts, vs);
    assert items[1..] == Leaves(texts[1..], vs[1..]) && items[0] == Leaf(texts[0], vs[0]);
    if |texts| == 1 {
      assert Commas(texts[1..]) == [] && [COMMA] + texts[0] + [] == [COMMA] + texts[0];
    } else {
      LeavesText(texts[1..], vs[1..]);
      assert [COMMA] + texts[0] + ([COMMA] + Inner(items[1..])) == [COMMA] + (texts[0] + [COMMA] + Inner(items[1..]));
    }
  }

  lemma OneLevelParses(items: seq<Nested>)
    requires items != [] && AllShaped(items, 0) && items[|items| - 1].Leaf? && |AllElems(items)| == |items|
    ensures Parse([OPEN] + Inner(items) + [CLOSE], [COMMA]) == Some(Parsed([|items|], AllElems(items)))
  {
    var n := Node(items);
    assert Text(n) == [OPEN] + Inner(items) + [CLOSE] && Elems(n) == AllElems(items) && Shaped(n, 1);
    assert LastLengths(n) == [|items|] + [] == [|items|];
    NestedParsesExactly(n, 1);
    OneDivides(|items|);
  }

  lemma OneDivides(n: nat)
    ensures DividesAll([n], n)
  {
  }

  /** The parser reads back what the texts stand for, nulls and all. */
  lemma ElementsParse(texts: seq<Bytes>, vs: seq<Option<Bytes>>)
    requires AllStandFor(texts, vs)
    ensures Parse(ArrayText(texts), [COMMA]) == Some(Parsed(if vs == [] then [] else [|vs|], vs))
  {
    if texts == [] {
      EmptyParses();
    } else {
      LeavesOf(texts, vs);
      LeavesText(texts, vs);
      OneLevelParses(Leaves(texts, vs));
    }
  }

  /** The parser reads back what the texts stand for. */
  lemma ArrayTextParses(texts: seq<Bytes>, vs: seq<Bytes>)
    requires AllDenote(texts, vs)
    ensures Parse(ArrayText(texts), [COMMA]) == Some(Parsed(if vs == [] then [] else [|vs|], Somes(vs)))
  {
    ElementsParse(texts, Somes(vs));
  }

  function Somes(vs: seq<Bytes>): (r: seq<Option<Bytes>>)
    ensures |r| == |vs| && forall k :: 0 <= k < |vs| ==> r[k] == Some(vs[k])
  {
    seq(|vs|, k requires 0 <= k < |vs| => Some(vs[k]))
  }

  lemma EmptyParses()
    ensures Parse([OPEN, CLOSE], [COMMA]) == Some(Parsed([], []))
  {
    assert Opening([OPEN, CLOSE], 1) == 1 && Closes([OPEN, CLOSE], 1, 1);
  }

  // ----- rectangles -----

  /** Arrays beside one another have the same lengths. */
  predicate Rectangular(n: Nested, lengths: seq<nat>)
    decreases n, 0
  {
    match n
    case Leaf(text, v) => lengths == [] && StandsFor(text, v)
    case Node(items) =>
      lengths != [] && items != [] && |items| == lengths[0] && AllRectangular(items, lengths[1..])
  }

  predicate AllRectangular(items: seq<Nested>, lengths: seq<nat>)
    decreases items
  {
    items != [] ==> Rectangular(items[0], lengths) && AllRectangular(items[1..], lengths)
  }

  function Product(lengths: seq<nat>): nat {
    if lengths == [] then 1 else lengths[0] * Product(lengths[1..])
  }

  lemma {:induction false} RectangleIsShaped(n: Nested, lengths: seq<nat>)
    requires Rectangular(n, lengths)
    ensures Shaped(n, |lengths|) && LastLengths(n) == lengths && |Elems(n)| == Product(lengths)
    decreases n, 1
  {
    if n.Node? {
      RectanglesAreShaped(n.items, lengths[1..]);
      assert [lengths[0]] + lengths[1..] == lengths;
    }
  }

  lemma {:induction false} RectanglesAreShaped(items: seq<Nested>, lengths: seq<nat>)
    requires items != [] && AllRectangular(items, lengths)
    ensures AllShaped(items, |lengths|) && LastLengths(items[|items| - 1]) == lengths
    ensures |AllElems(items)| == |items| * Product(lengths)
    decreases items, 0
  {
    RectangleIsShaped(items[0], lengths);
    if |items| > 1 {
      RectanglesAreShaped(items[1..], lengths);
      assert items[1..][|items| - 2] == items[|items| - 1];
      assert |items| * Product(lengths) == Product(lengths) + (|items| - 1) * Product(lengths);
    } else {
      assert AllElems(items[1..]) == [];
    }
  }

  lemma {:induction false} ProductDivides(lengths: seq<nat>, k: nat) returns (rest: nat)
    requires k < |lengths|
    ensures Product(lengths) == lengths[k] * rest
  {
    if k == 0 {
      rest := Product(lengths[1..]);
    } else {
      var inner := ProductDivides(lengths[1..], k - 1);
      rest := lengths[0] * inner;
      Exchange(lengths[0], lengths[k], inner);
    }
  }

  lemma Exchange(a: nat, b: nat, c: nat)
    ensures a * (b * c) == b * (a * c)
  {
  }

  lemma MultipleDivides(d: nat, n: nat)
    requires d > 0
    ensures d * n % d == 0
  {
    var q := d * n / d;
    assert d * n == d * q + d * n % d;
    Within(d, n - q, d * n % d);
  }

  lemma Within(d: nat, x: int, r: nat)
    requires d * x == r < d
    ensures r == 0
  {
    if x >= 1 {
      assert d * x == d * (x - 1) + d;
    }
  }

  /** A rectangle is read with its lengths and its elements, row by row. */
  lemma RectangleParses(n: Nested, lengths: seq<nat>)
    requires n.Node? && Rectangular(n, lengths)
    ensures Parse(Text(n), [COMMA]) == Some(Parsed(lengths, Elems(n)))
  {
    RectangleIsShaped(n, lengths);
    NestedParsesExactly(n, |lengths|);
    forall k | 0 <= k < |lengths| && lengths[k] > 0 ensures |Elems(n)| % lengths[k] == 0 {
      var rest := ProductDivides(lengths, k);
      MultipleDivides(lengths[k], rest);
    }
  }

  function Digit(c: Byte): Nested {
    Leaf([c], Some([c]))
  }

  const LONG := [Digit(49), Digit(50), Digit(51)]
  const SHORT := [Digit(52)]

  lemma RaggedIsShaped()
    ensures var n := Node([Node(LONG), Node(SHORT)]);
      && Shaped(n, 2) && LastLengths(n) == [2, 1]
      && Elems(n) == [Some([49]), Some([50]), Some([51]), Some([52])]
  {
    var rows := [Node(LONG), Node(SHORT)];
    assert LONG[1..] == [Digit(50), Digit(51)] && LONG[1..][1..] == [Digit(51)] && LONG[1..][1..][1..] == [];
    assert SHORT[1..] == [] && rows[1..] == [Node(SHORT)] && rows[1..][1..] == [];
    assert AllShaped(LONG, 0) && AllShaped(SHORT, 0);
    assert AllShaped([], 1) && AllShaped(rows[1..], 1) && Shaped(rows[0], 1) && AllShaped(rows, 1);
    assert LastLengths(Node(SHORT)) == [1] + [] == [1] && LastLengths(Node(rows)) == [2] + [1];
    assert AllElems(LONG) == [Some([49]), Some([50]), Some([51])] && AllElems(SHORT) == [Some([52])];
    assert AllElems(rows[1..]) == Elems(Node(SHORT)) + [] && Elems(Node(SHORT)) == AllElems(SHORT);
    assert AllElems(rows) == Elems(rows[0]) + AllElems(rows[1..]) && Elems(rows[0]) == AllElems(LONG);
  }

  lemma TwoByOne()
    ensures Product([2, 1]) == 2
  {
    assert Product([2, 1]) == 2 * Product([1]) && Product([1]) == 1 * Product([]);
  }

  /** Arrays that do not match are not always refused: {{1,2,3},{4}} is read as two rows of one, with four elements. */
  lemma RaggedIsAccepted()
    ensures var n := Node([Node(LONG), Node(SHORT)]);
      && (forall lengths :: !Rectangular(n, lengths))
      && Parse(Text(n), [COMMA]) == Some(Parsed([2, 1], [Some([49]), Some([50]), Some([51]), Some([52])]))
  {
    var n := Node([Node(LONG), Node(SHORT)]);
    RaggedIsShaped();
    NestedParsesExactly(n, 2);
    TwoByOne();
    forall lengths ensures !Rectangular(n, lengths) {
      if Rectangular(n, lengths) {
        RectangleIsShaped(n, lengths);
        assert false;
      }
    }
  }

  // ----- what is accepted at all -----

  /** Every length is positive and divides the number of elements. */
  predicate Even(p: Parsed) {
    forall k :: 0 <= k < |p.dims| ==> p.dims[k] > 0 && |p.elems| % p.dims[k] == 0
  }

  /** From within brackets, the rest of the text is accepted only if a bracket closes it. */
  lemma {:induction false} AcceptedFromElement(src: Bytes, del: Bytes, s: State)
    requires del != [] && Valid(src, s) && s.depth > 0 && FromElement(src, del, s).Some?
    ensures src != [] && src[|src| - 1] == CLOSE && Even(FromElement(src, del, s).value)
    decreases |src| - s.i, 1
  {
    AcceptedAfterElement(src, del, ReadElement(src, del, s).value);
  }

  lemma {:induction false} AcceptedAfterElement(src: Bytes, del: Bytes, s: State)
    requires del != [] && Valid(src, s) && AfterElement(src, del, s).Some?
    requires s.depth > 0 || (s.i > 0 && src[s.i - 1] == CLOSE)
    ensures src != [] && src[|src| - 1] == CLOSE && Even(AfterElement(src, del, s).value)
    decreases |src| - s.i, 0
  {
    if s.i == |src| {
    } else if StartsWith(src, s.i, del) && s.depth > 0 {
      AcceptedFromElement(src, del,
                          s.(i := s.i + |del|, dims := s.dims[s.depth - 1 := s.dims[s.depth - 1] + 1]));
    } else if src[s.i] == CLOSE && s.depth > 0 {
      AcceptedAfterElement(src, del, Closed(s));
    }
  }

  /** A text that is accepted is within brackets, and its lengths divide the number of its elements. */
  lemma AcceptedIsBracketed(src: Bytes, del: Bytes)
    requires del != [] && Parse(src, del).Some?
    ensures |src| >= 2 && src[0] == OPEN && src[|src| - 1] == CLOSE && Even(Parse(src, del).value)
  {
    var n := Opening(src, 0);
    if n < |src| && src[n] == CLOSE {
    } else {
      AcceptedFromElement(src, del, State(n, n, seq(n, _ => 0), []));
    }
  }
}
