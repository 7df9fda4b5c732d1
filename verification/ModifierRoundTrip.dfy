/** What the printer of modifiers writes, the parser reads back. */
module ModifierRoundTrip {
  import opened Common
  import opened Modifiers

  // ----- braces -----

  /** How many braces are open after a text, if none is closed that is not open. */
  function Level(s: string, open: nat): Option<nat> {
    if s == "" then Some(open)
    else if s[0] == '{' then Level(s[1..], open + 1)
    else if s[0] == '}' then if open == 0 then None else Level(s[1..], open - 1)
    else Level(s[1..], open)
  }

  predicate Balanced(s: string) {
    Level(s, 0) == Some(0)
  }

  lemma {:induction false} LevelConcat(a: string, b: string, open: nat)
    ensures Level(a + b, open) == match Level(a, open) case None => None case Some(n) => Level(b, n)
  {
    if a == "" {
      assert a + b == b;
    } else {
      assert (a + b)[1..] == a[1..] + b;
      LevelConcat(a[1..], b, if a[0] == '{' then open + 1 else if a[0] == '}' && open > 0 then open - 1 else open);
    }
  }

  lemma {:induction false} LevelUp(s: string, open: nat, more: nat)
    requires Level(s, open).Some?
    ensures Level(s, open + more) == Some(Level(s, open).value + more)
  {
    if s == "" {
    } else {
      LevelUp(s[1..], if s[0] == '{' then open + 1 else if s[0] == '}' then open - 1 else open, more);
    }
  }

  lemma BalancedConcat(a: string, b: string)
    requires Balanced(a) && Balanced(b)
    ensures Balanced(a + b)
  {
    LevelConcat(a, b, 0);
  }

  lemma BalancedBraces(s: string)
    requires Balanced(s)
    ensures Balanced("{" + s + "}")
  {
    LevelUp(s, 0, 1);
    assert ("{" + s)[1..] == s;
    LevelConcat("{" + s, "}", 0);
    assert "}"[1..] == "";
  }

  lemma {:induction false} BalancedPlain(s: string)
    requires '{' !in s && '}' !in s
    ensures Balanced(s)
  {
    if s == "" {
    } else {
      BalancedPlain(s[1..]);
    }
  }

  // ----- what is printed -----

  predicate PlainName(name: string) {
    name != "" && forall k :: 0 <= k < |name| ==> name[k] !in " =:{}"
  }

  /** Braces match, and a value that has no space does not start with one. */
  predicate GoodValue(value: string) {
    Balanced(value) && (value != "" && !HasSpace(value) ==> value[0] != '{')
  }

  predicate Good(m: Modifier) {
    m.rawValue == "" && PlainName(m.name) && GoodValue(m.value) && AllGood(m.submodifiers)
  }

  predicate AllGood(ms: seq<Modifier>) {
    ms != [] ==> Good(ms[0]) && AllGood(ms[1..])
  }

  /** What the parser makes the raw value. */
  function Raw(m: Modifier): string
    decreases m, 0
  {
    if IsBare(m) then "" else ValueText(m.value) + Tail(m.submodifiers)
  }

  function Body(m: Modifier): string
    decreases m, 1
  {
    if IsBare(m) then m.name else m.name + Opening(m) + Raw(m) + Closing(m)
  }

  function Tail(ms: seq<Modifier>): string
    decreases ms
  {
    if ms == [] then "" else " " + Body(ms[0]) + Tail(ms[1..])
  }

  predicate EndsPlain(s: string) {
    s != "" && s[|s| - 1] != ' '
  }

  lemma NoSpaceEnds(s: string)
    requires s != "" && !HasSpace(s)
    ensures EndsPlain(s)
  {
    assert s[|s| - 1] in s;
  }

  lemma ValueTextEnds(value: string)
    ensures EndsPlain(ValueText(value)) && ValueText(value)[0] != ' '
  {
    if value != "" && !HasSpace(value) {
      NoSpaceEnds(value);
      assert value[0] in value;
    }
  }

  lemma BodyEnds(m: Modifier)
    requires PlainName(m.name)
    ensures EndsPlain(Body(m)) && Body(m)[0] != ' ' && |Body(m)| >= |m.name|
    ensures !IsBare(m) ==> |Body(m)| > |m.name|
  {
    assert m.name[0] !in " =:{}" && m.name[|m.name| - 1] !in " =:{}";
    if !IsBare(m) && !NeedsBraces(m) {
      ValueTextEnds(m.value);
      assert Tail(m.submodifiers) == "";
    }
  }

  lemma {:induction false} TailSnoc(ms: seq<Modifier>, m: Modifier)
    ensures Tail(ms + [m]) == Tail(ms) + " " + Body(m)
  {
    if ms == [] {
      assert [m][1..] == [] && [] + [m] == [m];
    } else {
      TailSnoc(ms[1..], m);
      assert (ms + [m])[1..] == ms[1..] + [m];
    }
  }

  lemma {:induction false} AllGoodAt(ms: seq<Modifier>, k: nat)
    requires AllGood(ms) && k < |ms|
    ensures Good(ms[k]) && AllGood(ms[..k])
  {
    if k == 0 {
    } else {
      AllGoodAt(ms[1..], k - 1);
      assert ms[..k][1..] == ms[1..][..k - 1];
    }
  }

  lemma {:induction false} WritesBody(buf: string, m: Modifier)
    requires Good(m)
    ensures Written(buf, m) == buf + Separator(buf) + Body(m)
    decreases m, 1
  {
    if !IsBare(m) {
      var named := buf + Separator(buf) + m.name;
      ValueTextEnds(m.value);
      WritesTail(named + Opening(m) + ValueText(m.value), m.submodifiers);
      Regroup(buf + Separator(buf), m.name, Opening(m), ValueText(m.value), Tail(m.submodifiers), Closing(m));
    }
  }

  lemma Regroup3(a: string, b: string, c: string, d: string)
    ensures a + b + c + d == a + (b + c + d)
  {
  }

  lemma Regroup(a: string, b: string, c: string, d: string, e: string, f: string)
    ensures a + b + c + d + e + f == a + (b + c + (d + e) + f)
  {
  }

  lemma TailLast(buf: string, ms: seq<Modifier>)
    requires ms != []
    ensures buf + Tail(ms[..|ms| - 1]) + " " + Body(ms[|ms| - 1]) == buf + Tail(ms)
  {
    var init, last := ms[..|ms| - 1], ms[|ms| - 1];
    TailSnoc(init, last);
    assert init + [last] == ms;
    Regroup3(buf, Tail(init), " ", Body(last));
  }

  lemma {:induction false} WritesTail(buf: string, ms: seq<Modifier>)
    requires AllGood(ms) && EndsPlain(buf) && |buf| > 1
    ensures WrittenAll(buf, ms) == buf + Tail(ms)
    decreases ms, 0
  {
    if ms == [] {
      assert buf + "" == buf;
    } else {
      var init, last := ms[..|ms| - 1], ms[|ms| - 1];
      AllGoodAt(ms, |ms| - 1);
      WritesTail(buf, init);
      TailEnds(init);
      WritesBody(buf + Tail(init), last);
      TailLast(buf, ms);
    }
  }

  lemma {:induction false} TailEnds(ms: seq<Modifier>)
    requires AllGood(ms)
    ensures ms == [] || EndsPlain(Tail(ms))
    decreases |ms|
  {
    if ms == [] {
    } else {
      BodyEnds(ms[0]);
      TailEnds(ms[1..]);
    }
  }

  // ----- reading a value back -----

  /** What can follow a modifier or a value. */
  predicate Stops(rest: string) {
    rest != "" ==> rest[0] == ' '
  }

  /** The text s holds a from i on. */
  predicate Holds(s: string, i: nat, a: string) {
    i + |a| <= |s| && s[i..i + |a|] == a
  }

  /** Inside braces, a text that closes no more than it opens is read to its end. */
  lemma {:induction false} ScanInside(s: string, i: nat, a: string, level: nat)
    requires Holds(s, i, a) && level > 0 && Level(a, level - 1).Some?
    ensures Scan(s, i, true, level) == Scan(s, i + |a|, true, 1 + Level(a, level - 1).value)
    decreases |a|
  {
    if a == "" {
    } else {
      assert s[i] == s[i..i + |a|][0];
      assert s[i + 1..i + |a|] == s[i..i + |a|][1..];
      ScanInside(s, i + 1, a[1..], if a[0] == '{' then level + 1 else if a[0] == '}' then level - 1 else level);
    }
  }

  lemma PopQuoted(content: string, rest: string)
    requires Balanced(content) && Stops(rest)
    ensures PopValue("{" + content + "}" + rest) == Some((content, rest))
  {
    var s := "{" + content + "}" + rest;
    var end := |content| + 2;
    assert s[0] == '{' && Holds(s, 1, content) && s[end - 1] == '}' && s[end..] == rest;
    assert Scan(s, 0, true, 0) == Scan(s, 1, true, 1);
    ScanInside(s, 1, content, 1);
    assert Scan(s, end - 1, true, 1) == Scan(s, end, true, 0);
    assert Scan(s, end, true, 0) == (end, 0);
    assert s[1..end - 1] == content;
  }

  lemma {:induction false} ScanOutside(s: string, i: nat, end: nat)
    requires i <= end <= |s| && (forall k :: i <= k < end ==> s[k] != ' ') && (end < |s| ==> s[end] == ' ')
    ensures Scan(s, i, false, 0) == (end, 0)
    decreases end - i
  {
    if i < end {
      ScanOutside(s, i + 1, end);
    }
  }

  lemma PopPlain(value: string, rest: string)
    requires value != "" && !HasSpace(value) && value[0] != '{' && Stops(rest)
    ensures PopValue(value + rest) == Some((value, rest))
  {
    var s := value + rest;
    forall k | 0 <= k < |value| ensures s[k] != ' ' {
      assert value[k] in value;
    }
    ScanOutside(s, 0, |value|);
    assert s[..|value|] == value && s[|value|..] == rest;
  }

  /** The value that is read: an empty value before submodifiers comes back as a dot. */
  function ReadBack(m: Modifier): string {
    if m.value == "" && m.submodifiers != [] then "." else m.value
  }

  lemma TailStops(ms: seq<Modifier>)
    ensures Stops(Tail(ms))
  {
  }

  lemma PopRaw(m: Modifier)
    requires Good(m) && !IsBare(m)
    ensures PopValue(Raw(m)) == Some((ReadBack(m), Tail(m.submodifiers)))
  {
    TailStops(m.submodifiers);
    if m.value == "" {
      PopPlain(".", Tail(m.submodifiers));
    } else if HasSpace(m.value) {
      PopQuoted(m.value, Tail(m.submodifiers));
    } else {
      PopPlain(m.value, Tail(m.submodifiers));
    }
  }

  // ----- reading a modifier back -----

  lemma {:induction false} BalancedBody(m: Modifier)
    requires Good(m)
    ensures Balanced(Raw(m)) && Balanced(Body(m))
    decreases m, 1
  {
    forall k | 0 <= k < |m.name| ensures m.name[k] != '{' && m.name[k] != '}' {
      assert m.name[k] !in " =:{}";
    }
    BalancedPlain(m.name);
    if !IsBare(m) {
      if HasSpace(m.value) {
        BalancedBraces(m.value);
      } else {
        BalancedPlain(".");
      }
      BalancedTail(m.submodifiers);
      BalancedConcat(ValueText(m.value), Tail(m.submodifiers));
      BalancedPlain("=");
      BalancedConcat(m.name, "=");
      if NeedsBraces(m) {
        BalancedBraces(Raw(m));
        BalancedConcat(m.name + "=", "{" + Raw(m) + "}");
        assert Body(m) == m.name + "=" + ("{" + Raw(m) + "}");
      } else {
        BalancedConcat(m.name + "=", Raw(m));
        assert Body(m) == m.name + "=" + Raw(m);
      }
    }
  }

  lemma {:induction false} BalancedTail(ms: seq<Modifier>)
    requires AllGood(ms)
    ensures Balanced(Tail(ms))
    decreases ms, 0
  {
    if ms == [] {
    } else {
      BalancedBody(ms[0]);
      BalancedTail(ms[1..]);
      BalancedPlain(" ");
      BalancedConcat(" ", Body(ms[0]));
      BalancedConcat(" " + Body(ms[0]), Tail(ms[1..]));
    }
  }

  lemma {:induction false} NameEnds(s: string, i: nat, end: nat)
    requires i <= end <= |s| && (forall k :: i <= k < end ==> s[k] != ' ' && s[k] != '=')
    requires (end < |s| ==> s[end] == ' ' || s[end] == '=')
    ensures NameEnd(s, i) == end
    decreases end - i
  {
    if i < end {
      NameEnds(s, i + 1, end);
    }
  }

  lemma {:induction false} NoColon(name: string)
    requires forall k :: 0 <= k < |name| ==> name[k] != ':'
    ensures IndexOf(name, ':') == |name|
  {
    if name == "" {
    } else {
      NoColon(name[1..]);
    }
  }

  lemma PlainNameEnds(name: string, rest: string)
    requires PlainName(name) && (rest != "" ==> rest[0] == ' ' || rest[0] == '=')
    ensures var s := name + rest; TrimLeft(s) == s && NameEnd(s, 0) == |name| && IndexOf(name, ':') == |name|
  {
    var s := name + rest;
    forall k | 0 <= k < |name| ensures s[k] != ' ' && s[k] != '=' && name[k] != ':' {
      assert name[k] !in " =:{}";
    }
    NoColon(name);
    NameEnds(s, 0, |name|);
  }

  lemma PopBare(name: string, rest: string)
    requires PlainName(name) && Stops(rest)
    ensures PopModifier(name + rest) == Some((Modifier([], name, "", "", []), rest))
  {
    var s := name + rest;
    PlainNameEnds(name, rest);
    assert s[..|name|] == name && s[|name|..] == rest;
  }

  lemma PopValued(name: string, value: string, rawValue: string, rest: string)
    requires PlainName(name) && value != "" && value[0] != ' ' && PopValue(value) == Some((rawValue, rest))
    ensures PopModifier(name + ("=" + value)) == Some((Modifier([], name, rawValue, "", []), rest))
  {
    var s := name + ("=" + value);
    PlainNameEnds(name, "=" + value);
    assert s[..|name|] == name && s[|name| + 1..] == value;
  }

  lemma PopTrims(s: string)
    requires s != "" && s[0] != ' '
    ensures PopModifier(" " + s) == PopModifier(s)
  {
    assert (" " + s)[1..] == s;
  }

  /** A modifier as the parser returns it, before its raw value is looked at. */
  function Unread(m: Modifier): Modifier {
    Modifier([], m.name, Raw(m), "", [])
  }

  /** What comes after the equals sign. */
  function Valued(m: Modifier): string {
    if NeedsBraces(m) then "{" + Raw(m) + "}" else Raw(m)
  }

  lemma BodyShape(m: Modifier, rest: string)
    requires !IsBare(m)
    ensures Body(m) + rest == m.name + ("=" + (Valued(m) + rest))
  {
    if NeedsBraces(m) {
      assert Body(m) == m.name + "={" + Raw(m) + "}";
    } else {
      assert Body(m) == m.name + "=" + Raw(m);
    }
  }

  lemma PopAfterName(m: Modifier, rest: string)
    requires Good(m) && !IsBare(m) && Stops(rest)
    ensures var value := Valued(m) + rest; value != "" && value[0] != ' ' && PopValue(value) == Some((Raw(m), rest))
  {
    if NeedsBraces(m) {
      BalancedBody(m);
      PopQuoted(Raw(m), rest);
    } else {
      assert m.value + "" == m.value && Raw(m) == m.value;
      assert m.value[0] in m.value;
      PopPlain(m.value, rest);
    }
  }

  lemma PopBody(m: Modifier, rest: string)
    requires Good(m) && Stops(rest)
    ensures PopModifier(Body(m) + rest) == Some((Unread(m), rest))
    ensures PopModifier(" " + Body(m) + rest) == Some((Unread(m), rest))
  {
    BodyEnds(m);
    PopTrims(Body(m) + rest);
    assert " " + (Body(m) + rest) == " " + Body(m) + rest;
    if IsBare(m) {
      PopBare(m.name, rest);
    } else {
      PopAfterName(m, rest);
      BodyShape(m, rest);
      PopValued(m.name, Valued(m) + rest, Raw(m), rest);
    }
  }

  // ----- reading whole trees back -----

  function UnreadAll(ms: seq<Modifier>): (r: seq<Modifier>)
    ensures |r| == |ms|
  {
    if ms == [] then [] else [Unread(ms[0])] + UnreadAll(ms[1..])
  }

  lemma {:induction false} ModifiersOfTail(ms: seq<Modifier>)
    requires AllGood(ms)
    ensures ModifiersOf(Tail(ms)) == Some(UnreadAll(ms))
  {
    if ms == [] {
    } else {
      TailStops(ms[1..]);
      PopBody(ms[0], Tail(ms[1..]));
      ModifiersOfTail(ms[1..]);
    }
  }

  /** The tree that is read back for a tree that was written. */
  function ReadBackTree(m: Modifier): Modifier
    decreases m, 0
  {
    Modifier([], m.name, "", ReadBack(m), ReadBackAll(m.submodifiers))
  }

  function ReadBackAll(ms: seq<Modifier>): seq<Modifier>
    decreases ms
  {
    if ms == [] then [] else [ReadBackTree(ms[0])] + ReadBackAll(ms[1..])
  }

  lemma {:induction false} TreeIsReadBack(m: Modifier)
    requires Good(m)
    ensures Tree(Unread(m)) == Some(ReadBackTree(m))
    decreases m, 1
  {
    if !IsBare(m) {
      PopRaw(m);
      ModifiersOfTail(m.submodifiers);
      ValueTextEnds(m.value);
      assert Raw(m) != "";
      assert Parsed(Unread(m)) == Some(Unread(m).(value := ReadBack(m), submodifiers := UnreadAll(m.submodifiers)));
      TreesAreReadBack(m.submodifiers, |Raw(m)|);
    }
  }

  lemma {:induction false} TreesAreReadBack(ms: seq<Modifier>, bound: nat)
    requires AllGood(ms) && forall k :: 0 <= k < |ms| ==> |UnreadAll(ms)[k].rawValue| < bound
    ensures Trees(UnreadAll(ms), bound) == Some(ReadBackAll(ms))
    decreases ms, 0
  {
    if ms == [] {
    } else {
      TreeIsReadBack(ms[0]);
      assert UnreadAll(ms)[0] == Unread(ms[0]) && UnreadAll(ms)[1..] == UnreadAll(ms[1..]);
      forall k | 0 <= k < |ms| - 1 ensures |UnreadAll(ms[1..])[k].rawValue| < bound {
        assert UnreadAll(ms[1..])[k] == UnreadAll(ms)[k + 1];
      }
      TreesAreReadBack(ms[1..], bound);
    }
  }

  // ----- the whole text -----

  /** The first modifier is one character, so that the printer puts no space after it. A character stands for a byte, of
      which the printer's buffer counts the length. */
  predicate RunsTogether(ms: seq<Modifier>) {
    |ms| > 1 && |ms[0].name| == 1 && IsBare(ms[0])
  }

  lemma EndsPlainConcat(a: string, b: string)
    requires EndsPlain(a) && (b == "" || EndsPlain(b))
    ensures EndsPlain(a + b) && |a + b| >= |a|
  {
  }

  lemma RestIsGood(ms: seq<Modifier>, k: nat)
    requires AllGood(ms) && 1 < k <= |ms|
    ensures AllGood(ms[1..k - 1]) && Good(ms[0]) && Good(ms[k - 1])
  {
    AllGoodAt(ms, k - 1);
    AllGoodAt(ms[1..], k - 2);
    assert ms[1..][..k - 2] == ms[1..k - 1];
  }

  /** What is written so far. */
  lemma WrittenEnds(ms: seq<Modifier>, k: nat)
    requires AllGood(ms) && 1 < k <= |ms| && !RunsTogether(ms)
    ensures EndsPlain(Body(ms[0]) + Tail(ms[1..k - 1])) && |Body(ms[0]) + Tail(ms[1..k - 1])| > 1
  {
    RestIsGood(ms, k);
    BodyEnds(ms[0]);
    TailEnds(ms[1..k - 1]);
    EndsPlainConcat(Body(ms[0]), Tail(ms[1..k - 1]));
  }

  /** One more modifier after the first. */
  lemma WritesNext(ms: seq<Modifier>, k: nat)
    requires AllGood(ms) && 1 < k <= |ms| && !RunsTogether(ms)
    ensures Written(Body(ms[0]) + Tail(ms[1..k - 1]), ms[k - 1]) == Body(ms[0]) + Tail(ms[1..k])
  {
    var first, tail, last := Body(ms[0]), Tail(ms[1..k - 1]), ms[k - 1];
    RestIsGood(ms, k);
    WrittenEnds(ms, k);
    WritesBody(first + tail, last);
    assert ms[1..k][..k - 2] == ms[1..k - 1] && ms[1..k][k - 2] == last;
    TailLast(first, ms[1..k]);
  }

  lemma {:induction false} WritesList(ms: seq<Modifier>, k: nat)
    requires AllGood(ms) && 0 < k <= |ms| && !RunsTogether(ms)
    ensures WrittenAll("", ms[..k]) == Body(ms[0]) + Tail(ms[1..k])
    decreases k
  {
    assert ms[..k][..k - 1] == ms[..k - 1] && ms[..k][k - 1] == ms[k - 1];
    if k == 1 {
      AllGoodAt(ms, 0);
      WritesBody("", ms[0]);
      assert WrittenAll("", ms[..0]) == "" && Tail(ms[1..1]) == "";
      assert "" + Separator("") + Body(ms[0]) == Body(ms[0]) + "";
    } else {
      WritesList(ms, k - 1);
      WritesNext(ms, k);
    }
  }

  /** A list of trees comes back from its text, with a dot for each empty value that has
      submodifiers. */
  lemma ListReadsBack(ms: seq<Modifier>)
    requires AllGood(ms) && !RunsTogether(ms)
    ensures Read(WrittenAll("", ms)) == Some(ReadBackAll(ms))
  {
    if ms != [] {
      assert ms[..|ms|] == ms && ms[1..|ms|] == ms[1..];
      WritesList(ms, |ms|);
      var s := WrittenAll("", ms);
      TailStops(ms[1..]);
      BodyEnds(ms[0]);
      PopBody(ms[0], Tail(ms[1..]));
      ModifiersOfTail(ms[1..]);
      assert ModifiersOf(s) == Some(UnreadAll(ms));
      TreesAreReadBack(ms, |s|);
    }
  }

  // ----- when the first two modifiers run together -----

  /** The first two as the parser sees them. */
  function Merged(ms: seq<Modifier>): seq<Modifier>
    requires |ms| > 1
  {
    [ms[1].(name := ms[0].name + ms[1].name)] + ms[2..]
  }

  lemma {:induction false} MergedIsWritten(ms: seq<Modifier>, k: nat)
    requires AllGood(ms) && RunsTogether(ms) && 2 <= k <= |ms|
    ensures WrittenAll("", ms[..k]) == WrittenAll("", Merged(ms)[..k - 1])
    decreases k
  {
    assert ms[..k][..k - 1] == ms[..k - 1] && ms[..k][k - 1] == ms[k - 1];
    assert Merged(ms)[..k - 1][..k - 2] == Merged(ms)[..k - 2];
    if k == 2 {
      TwoAreWritten(ms);
    } else {
      MergedIsWritten(ms, k - 1);
      assert Merged(ms)[k - 2] == ms[k - 1];
    }
  }

  lemma LongerName(name: string, m: Modifier)
    ensures Body(m.(name := name + m.name)) == name + Body(m)
  {
    var longer := m.(name := name + m.name);
    if !IsBare(m) {
      assert Raw(longer) == Raw(m);
      assert Body(longer) == name + m.name + Opening(m) + Raw(m) + Closing(m);
    }
  }

  lemma TwoAreWritten(ms: seq<Modifier>)
    requires AllGood(ms) && RunsTogether(ms)
    ensures WrittenAll("", ms[..2]) == WrittenAll("", Merged(ms)[..1])
  {
    AllGoodAt(ms, 0);
    AllGoodAt(ms, 1);
    MergedIsGood(ms);
    assert ms[..2][..1] == ms[..1] && ms[..1][..0] == [] && ms[..2][1] == ms[1];
    assert Merged(ms)[..1][..0] == [];
    OneIsWritten(ms[0]);
    OneIsWritten(Merged(ms)[0]);
    WritesBody(ms[0].name, ms[1]);
    assert Separator(ms[0].name) == "" && ms[0].name + "" == ms[0].name;
    LongerName(ms[0].name, ms[1]);
  }

  lemma OneIsWritten(m: Modifier)
    requires Good(m)
    ensures Written("", m) == Body(m)
  {
    WritesBody("", m);
    assert "" + Separator("") + Body(m) == Body(m);
  }

  lemma MergedIsGood(ms: seq<Modifier>)
    requires AllGood(ms) && RunsTogether(ms)
    ensures AllGood(Merged(ms)) && !RunsTogether(Merged(ms))
  {
    AllGoodAt(ms, 0);
    AllGoodAt(ms, 1);
    assert Merged(ms)[1..] == ms[2..] && ms[1..][1..] == ms[2..];
    var name := Merged(ms)[0].name;
    forall k | 0 <= k < |name| ensures name[k] !in " =:{}" {
      assert name[k] == if k == 0 then ms[0].name[0] else ms[1].name[k - 1];
    }
  }

  lemma {:induction false} ReadBackLength(ms: seq<Modifier>)
    ensures |ReadBackAll(ms)| == |ms|
  {
    if ms == [] {
    } else {
      ReadBackLength(ms[1..]);
    }
  }

  /** Modifiers come back from their text exactly if the first two do not run together. */
  lemma ModifiersRoundTripExactly(ms: seq<Modifier>)
    requires AllGood(ms)
    ensures Read(WrittenAll("", ms)) == Some(ReadBackAll(ms)) <==> !RunsTogether(ms)
  {
    if RunsTogether(ms) {
      assert ms[..|ms|] == ms && Merged(ms)[..|ms| - 1] == Merged(ms);
      MergedIsWritten(ms, |ms|);
      MergedIsGood(ms);
      ListReadsBack(Merged(ms));
      ReadBackLength(ms);
      ReadBackLength(Merged(ms));
    } else {
      ListReadsBack(ms);
    }
  }

  // ----- what is lost -----

  /** Dialects are not printed, and an empty value before submodifiers is printed as a dot. */
  predicate Lossless(m: Modifier) {
    m.dialects == [] && (m.value == "" ==> m.submodifiers == []) && AllLossless(m.submodifiers)
  }

  predicate AllLossless(ms: seq<Modifier>) {
    ms != [] ==> Lossless(ms[0]) && AllLossless(ms[1..])
  }

  lemma {:induction false} ReadBackIsSame(m: Modifier)
    requires Good(m)
    ensures ReadBackTree(m) == m <==> Lossless(m)
    decreases m, 1
  {
    AllReadBackAreSame(m.submodifiers);
  }

  lemma {:induction false} AllReadBackAreSame(ms: seq<Modifier>)
    requires AllGood(ms)
    ensures ReadBackAll(ms) == ms <==> AllLossless(ms)
    decreases ms, 0
  {
    if ms == [] {
    } else {
      ReadBackIsSame(ms[0]);
      AllReadBackAreSame(ms[1..]);
      assert ms == [ms[0]] + ms[1..];
      assert ReadBackAll(ms)[1..] == ReadBackAll(ms[1..]);
    }
  }

  /** Modifiers come back the same from their text exactly if the first two do not run together, none has dialects, and
      none has submodifiers but no value. */
  lemma SameAfterRoundTripExactly(ms: seq<Modifier>)
    requires AllGood(ms)
    ensures Read(WrittenAll("", ms)) == Some(ms) <==> !RunsTogether(ms) && AllLossless(ms)
  {
    AllReadBackAreSame(ms);
    if RunsTogether(ms) {
      assert ms[..|ms|] == ms && Merged(ms)[..|ms| - 1] == Merged(ms);
      MergedIsWritten(ms, |ms|);
      MergedIsGood(ms);
      ListReadsBack(Merged(ms));
      ReadBackLength(Merged(ms));
    } else {
      ListReadsBack(ms);
    }
  }

  // ----- dialects -----

  function Commas(dialects: seq<string>): string {
    if dialects == [] then ""
    else if |dialects| == 1 then dialects[0]
    else dialects[0] + "," + Commas(dialects[1..])
  }

  /** No character of the text is one of the others. */
  predicate Without(text: string, others: string) {
    forall k :: 0 <= k < |text| ==> text[k] !in others
  }

  lemma {:induction false} CommasWithout(dialects: seq<string>)
    requires forall d :: d in dialects ==> Without(d, " =:,")
    ensures Without(Commas(dialects), " =:")
  {
    if |dialects| > 1 {
      CommasWithout(dialects[1..]);
      var first, rest := dialects[0], Commas(dialects[1..]);
      assert first in dialects;
      var all := first + "," + rest;
      forall k | 0 <= k < |all| ensures all[k] !in " =:" {
        assert k < |first| ==> all[k] == first[k] && first[k] !in " =:,";
        assert k > |first| ==> all[k] == rest[k - |first| - 1];
      }
    } else if |dialects| == 1 {
      var first := dialects[0];
      assert first in dialects;
      forall k | 0 <= k < |first| ensures first[k] !in " =:" {
        assert first[k] !in " =:,";
      }
    }
  }

  lemma {:induction false} FirstIndex(s: string, c: char, rest: string)
    requires Without(s, [c])
    ensures IndexOf(s + [c] + rest, c) == |s| && IndexOf(s, c) == |s|
  {
    if s == "" {
      assert "" + [c] + rest == [c] + rest;
    } else {
      FirstIndex(s[1..], c, rest);
      assert (s + [c] + rest)[1..] == s[1..] + [c] + rest;
      assert s[0] !in [c];
    }
  }

  /** Dialects are told apart by commas. */
  lemma {:induction false} SplitCommas(dialects: seq<string>)
    requires dialects != [] && forall d :: d in dialects ==> Without(d, " =:,")
    ensures Split(Commas(dialects), ',') == dialects
    decreases |dialects|
  {
    var first := dialects[0];
    assert first in dialects;
    assert Without(first, ",") by {
      forall k | 0 <= k < |first| ensures first[k] !in "," {
        assert first[k] !in " =:,";
      }
    }
    if |dialects| == 1 {
      FirstIndex(first, ',', "");
    } else {
      var rest := Commas(dialects[1..]);
      FirstIndex(first, ',', rest);
      SplitCommas(dialects[1..]);
      var all := first + "," + rest;
      assert all[..|first|] == first && all[|first| + 1..] == rest;
    }
  }

  /** A name and the dialects before it, if there are any. */
  function Prefixed(dialects: seq<string>, name: string): string {
    if dialects == [] then name else Commas(dialects) + ":" + name
  }

  lemma NamedExactly(dialects: seq<string>, name: string, rawValue: string)
    requires PlainName(name) && forall d :: d in dialects ==> Without(d, " =:,")
    ensures WithName(Prefixed(dialects, name), rawValue) == Modifier(dialects, name, rawValue, "", [])
    ensures Without(Prefixed(dialects, name), " =") && Prefixed(dialects, name) != ""
  {
    assert Without(name, ":") && Without(name, " =") by {
      forall k | 0 <= k < |name| ensures name[k] !in ":" && name[k] !in " =" {
        assert name[k] !in " =:{}";
      }
    }
    if dialects == [] {
      NoColon(name);
    } else {
      var before := Commas(dialects);
      CommasWithout(dialects);
      assert Without(before, ":") by {
        forall k | 0 <= k < |before| ensures before[k] !in ":" {
          assert before[k] !in " =:";
        }
      }
      FirstIndex(before, ':', name);
      SplitCommas(dialects);
      var all := before + ":" + name;
      assert all[..|before|] == before && all[|before| + 1..] == name;
      forall k | 0 <= k < |all| ensures all[k] !in " =" {
        assert k < |before| ==> all[k] == before[k] && before[k] !in " =:";
        assert k > |before| ==> all[k] == name[k - |before| - 1];
      }
    }
  }

  lemma PrefixedEnds(text: string, rest: string)
    requires text != "" && Without(text, " =") && (rest != "" ==> rest[0] == ' ' || rest[0] == '=')
    ensures TrimLeft(text + rest) == text + rest && NameEnd(text + rest, 0) == |text|
    ensures (text + rest)[..|text|] == text && (text + rest)[|text|..] == rest
  {
    var s := text + rest;
    forall k | 0 <= k < |text| ensures s[k] != ' ' && s[k] != '=' {
      assert text[k] !in " =";
    }
    NameEnds(s, 0, |text|);
  }

  /** A modifier is read with the dialects before its name; but if a space follows its equals sign, they are taken for
      a part of the name. */
  lemma DialectsAreRead(dialects: seq<string>, name: string, value: string, rawValue: string, rest: string)
    requires PlainName(name) && forall d :: d in dialects ==> Without(d, " =:,")
    ensures Stops(rest) ==>
              PopModifier(Prefixed(dialects, name) + rest) == Some((Modifier(dialects, name, "", "", []), rest))
    ensures value != "" && value[0] != ' ' && PopValue(value) == Some((rawValue, rest)) ==>
              PopModifier(Prefixed(dialects, name) + ("=" + value))
                  == Some((Modifier(dialects, name, rawValue, "", []), rest))
    ensures PopModifier(Prefixed(dialects, name) + ("= " + rest))
         == Some((Modifier([], Prefixed(dialects, name), "", "", []), " " + rest))
  {
    var text := Prefixed(dialects, name);
    NamedExactly(dialects, name, "");
    NamedExactly(dialects, name, rawValue);
    if Stops(rest) {
      PrefixedEnds(text, rest);
    }
    PrefixedEnds(text, "=" + value);
    assert (text + ("=" + value))[|text| + 1..] == value;
    PrefixedEnds(text, "= " + rest);
    assert (text + ("= " + rest))[|text| + 1..] == " " + rest;
  }

  /** What the parser returns has names. */
  lemma {:induction false} ModifiersHaveNames(s: string)
    ensures ModifiersOf(s).Some? ==> forall m :: m in ModifiersOf(s).value ==> m.name != ""
    decreases |s|
  {
    if s == "" || PopModifier(s) == None {
    } else {
      ModifiersHaveNames(PopModifier(s).value.1);
    }
  }
}
