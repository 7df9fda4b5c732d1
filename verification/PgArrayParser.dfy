/** The text format of PostgreSQL arrays (section 8.15.6 of the PostgreSQL manual, array input
    and output syntax), as the parser reads it. */
module PgArrayParser {
  import opened Common

  newtype Byte = x: int | 0 <= x < 256
  type Bytes = seq<Byte>

  const OPEN: Byte := 123
  const CLOSE: Byte := 125
  const COMMA: Byte := 44
  const QUOTE: Byte := 34
  const BACKSLASH: Byte := 92
  const NULL: Bytes := [78, 85, 76, 76]

  /** Elements are None for NULL. */
  datatype Parsed = Parsed(dims: seq<nat>, elems: seq<Option<Bytes>>)

  /** The parser's variables. */
  datatype State = State(i: nat, depth: nat, dims: seq<nat>, elems: seq<Option<Bytes>>)

  predicate StartsWith(src: Bytes, i: nat, del: Bytes)
    requires i <= |src|
  {
    |src| - i >= |del| && src[i..i + |del|] == del
  }

  /** The depth is within the dimensions, and a dimension that is not open has been closed. */
  predicate Valid(src: Bytes, s: State) {
    s.i <= |src| && s.depth <= |s.dims| && forall k :: s.depth <= k < |s.dims| ==> s.dims[k] > 0
  }

  // ----- one element -----

  /** The rest of a quoted element: where it ends, and its text if it has an end. */
  function Quoted(src: Bytes, i: nat, elem: Bytes, escape: bool): (r: (nat, Option<Bytes>))
    requires i <= |src|
    ensures i <= r.0 <= |src| && (r.1.None? ==> r.0 == |src|) && (r.1.Some? ==> r.0 > i)
    decreases |src| - i
  {
    if i == |src| then (i, None)
    else if escape then Quoted(src, i + 1, elem + [src[i]], false)
    else if src[i] == BACKSLASH then Quoted(src, i + 1, elem, true)
    else if src[i] == QUOTE then (i + 1, Some(elem))
    else Quoted(src, i + 1, elem + [src[i]], false)
  }

  /** Where an element without quotes ends. */
  function Bare(src: Bytes, del: Bytes, i: nat): (end: nat)
    requires i <= |src|
    ensures i <= end <= |src|
    decreases |src| - i
  {
    if i == |src| || StartsWith(src, i, del) || src[i] == CLOSE then i else Bare(src, del, i + 1)
  }

  /** Up to the end of one element; None if there is none where there must be. */
  function ReadElement(src: Bytes, del: Bytes, s: State): (r: Option<State>)
    requires Valid(src, s)
    ensures r.Some? ==>
        Valid(src, r.value) && r.value.i >= s.i && |r.value.dims| == |s.dims| && r.value.depth >= s.depth
    decreases |src| - s.i
  {
    if s.i == |src| then Some(s)
    else if src[s.i] == OPEN then
      if s.depth == |s.dims| then Some(s)
      else ReadElement(src, del, s.(i := s.i + 1, depth := s.depth + 1, dims := s.dims[s.depth := 0]))
    else if src[s.i] == QUOTE then
      var q := Quoted(src, s.i + 1, [], false);
      Some(if q.1.Some? then s.(i := q.0, elems := s.elems + [q.1]) else s.(i := q.0))
    else
      var end := Bare(src, del, s.i);
      if end == |src| then Some(s.(i := end))
      else if end == s.i then None
      else Some(s.(i := end, elems := s.elems + [if src[s.i..end] == NULL then None else Some(src[s.i..end])]))
  }

  // ----- the whole text -----

  predicate Divides(n: nat, dims: seq<nat>)
    requires forall k :: 0 <= k < |dims| ==> dims[k] > 0
  {
    forall k :: 0 <= k < |dims| ==> n % dims[k] == 0
  }

  /** Every bracket is closed, so that no dimension is zero. */
  function Finish(src: Bytes, s: State): Option<Parsed>
    requires Valid(src, s)
  {
    if s.depth > 0 || !Divides(|s.elems|, s.dims) then None else Some(Parsed(s.dims, s.elems))
  }

  function FromElement(src: Bytes, del: Bytes, s: State): Option<Parsed>
    requires del != [] && Valid(src, s)
    decreases |src| - s.i, 1
  {
    match ReadElement(src, del, s)
    case None => None
    case Some(next) => AfterElement(src, del, next)
  }

  function AfterElement(src: Bytes, del: Bytes, s: State): Option<Parsed>
    requires del != [] && Valid(src, s)
    decreases |src| - s.i, 0
  {
    if s.i == |src| then Finish(src, s)
    else if StartsWith(src, s.i, del) && s.depth > 0 then
      FromElement(src, del, s.(i := s.i + |del|, dims := s.dims[s.depth - 1 := s.dims[s.depth - 1] + 1]))
    else if src[s.i] == CLOSE && s.depth > 0 then
      AfterElement(src, del,
                   s.(i := s.i + 1, depth := s.depth - 1, dims := s.dims[s.depth - 1 := s.dims[s.depth - 1] + 1]))
    else None
  }

  /** How many brackets open the text. */
  function Opening(src: Bytes, i: nat): (n: nat)
    requires i <= |src|
    ensures i <= n <= |src|
    decreases |src| - i
  {
    if i < |src| && src[i] == OPEN then Opening(src, i + 1) else i
  }

  /** Brackets only, from i on, as many as are open. */
  predicate Closes(src: Bytes, i: nat, depth: nat)
    requires i <= |src|
  {
    |src| - i == depth && forall k :: i <= k < |src| ==> src[k] == CLOSE
  }

  function Parse(src: Bytes, del: Bytes): Option<Parsed>
    requires del != []
  {
    if |src| == 0 || src[0] != OPEN then None
    else
      var n := Opening(src, 0);
      if n < |src| && src[n] == CLOSE then if Closes(src, n, n) then Some(Parsed([], [])) else None
      else FromElement(src, del, State(n, n, seq(n, _ => 0), []))
  }

  // ----- the parser as it runs -----

  /** Three loops that jump into one another: elements, what follows an element, and closing
      brackets. It ends on every text, and never divides by zero. */
  method ParseArray(src: Bytes, del: Bytes) returns (r: Option<Parsed>)
    requires del != []
    ensures r == Parse(src, del)
  {
    if |src| < 1 || src[0] != OPEN {
      return None;
    }
    var depth, i: nat := 0, 0;
    while i < |src|
      invariant depth == i <= |src|
      invariant Opening(src, 0) == Opening(src, i)
    {
      if src[i] == OPEN {
        depth := depth + 1;
        i := i + 1;
      } else if src[i] == CLOSE {
        r := CloseAll(src, i, depth);
        return;
      } else {
        break;
      }
    }
    var s := State(i, depth, seq(i, _ => 0), []);
    while true
      invariant Valid(src, s) && Parse(src, del) == FromElement(src, del, s)
      decreases |src| - s.i
    {
      var next := NextElement(src, del, s);
      if next == None {
        return None;
      }
      var after, again := NextDelimiter(src, del, next.value);
      if after == None {
        return None;
      }
      s := after.value;
      if !again {
        break;
      }
    }
    r := CheckDimensions(src, s);
  }

  /** What follows an element, up to the next delimiter or the end. */
  method NextDelimiter(src: Bytes, del: Bytes, start: State) returns (r: Option<State>, again: bool)
    requires del != [] && Valid(src, start)
    ensures r.None? ==> AfterElement(src, del, start) == None
    ensures r.Some? ==> Valid(src, r.value) && r.value.i >= start.i
    ensures r.Some? && again ==> r.value.i > start.i && AfterElement(src, del, start) == FromElement(src, del, r.value)
    ensures r.Some? && !again ==> AfterElement(src, del, start) == Finish(src, r.value)
  {
    var s := start;
    again := false;
    while s.i < |src|
      invariant Valid(src, s) && s.i >= start.i && AfterElement(src, del, start) == AfterElement(src, del, s)
      decreases |src| - s.i
    {
      if StartsWith(src, s.i, del) && s.depth > 0 {
        s := s.(i := s.i + |del|, dims := s.dims[s.depth - 1 := s.dims[s.depth - 1] + 1]);
        return Some(s), true;
      } else if src[s.i] == CLOSE && s.depth > 0 {
        s := s.(i := s.i + 1, depth := s.depth - 1, dims := s.dims[s.depth - 1 := s.dims[s.depth - 1] + 1]);
      } else {
        return None, false;
      }
    }
    return Some(s), false;
  }

  method CheckDimensions(src: Bytes, s: State) returns (r: Option<Parsed>)
    requires Valid(src, s)
    ensures r == Finish(src, s)
  {
    if s.depth > 0 {
      return None;
    }
    var k := 0;
    while k < |s.dims|
      invariant 0 <= k <= |s.dims|
      invariant forall j :: 0 <= j < k ==> |s.elems| % s.dims[j] == 0
    {
      if |s.elems| % s.dims[k] != 0 {
        return None;
      }
      k := k + 1;
    }
    return Some(Parsed(s.dims, s.elems));
  }

  method CloseAll(src: Bytes, start: nat, open: nat) returns (r: Option<Parsed>)
    requires start <= |src|
    ensures r == if Closes(src, start, open) then Some(Parsed([], [])) else None
  {
    var i, depth := start, open;
    while i < |src|
      invariant start <= i <= |src| && 0 <= depth <= open && i - start == open - depth
      invariant forall k :: start <= k < i ==> src[k] == CLOSE
    {
      if src[i] == CLOSE && depth > 0 {
        depth := depth - 1;
        i := i + 1;
      } else {
        return None;
      }
    }
    return if depth > 0 then None else Some(Parsed([], []));
  }

  /** The loop that reads one element, after the brackets that open before it. */
  method NextElement(src: Bytes, del: Bytes, start: State) returns (r: Option<State>)
    requires Valid(src, start)
    ensures r == ReadElement(src, del, start)
  {
    var s := start;
    while s.i < |src|
      invariant Valid(src, s) && ReadElement(src, del, start) == ReadElement(src, del, s)
      decreases |src| - s.i
    {
      if src[s.i] == OPEN {
        if s.depth == |s.dims| {
          break;
        }
        s := s.(i := s.i + 1, depth := s.depth + 1, dims := s.dims[s.depth := 0]);
      } else if src[s.i] == QUOTE {
        var elem: Bytes := [];
        var escape := false;
        var i := s.i + 1;
        while i < |src|
          invariant s.i < i <= |src|
          invariant Quoted(src, s.i + 1, [], false) == Quoted(src, i, elem, escape)
        {
          if escape {
            elem := elem + [src[i]];
            escape := false;
          } else if src[i] == BACKSLASH {
            escape := true;
          } else if src[i] == QUOTE {
            return Some(s.(i := i + 1, elems := s.elems + [Some(elem)]));
          } else {
            elem := elem + [src[i]];
          }
          i := i + 1;
        }
        return Some(s.(i := i));
      } else {
        var i := s.i;
        while i < |src|
          invariant s.i <= i <= |src| && Bare(src, del, s.i) == Bare(src, del, i)
        {
          if StartsWith(src, i, del) || src[i] == CLOSE {
            var elem := src[s.i..i];
            if |elem| == 0 {
              return None;
            }
            return Some(s.(i := i, elems := s.elems + [if elem == NULL then None else Some(elem)]));
          }
          i := i + 1;
        }
        return Some(s.(i := i));
      }
    }
    return Some(s);
  }
}
