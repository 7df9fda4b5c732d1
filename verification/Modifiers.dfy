/** The modifier language of struct tags: a printer, and a parser that reads one level of
    braces at a time. */
module Modifiers {
  import opened Common

  /** The raw value is what was read; value and submodifiers are what has been made of it. */
  datatype Modifier = Modifier(dialects: seq<string>, name: string, rawValue: string, value: string,
                               submodifiers: seq<Modifier>)

  predicate HasSpace(s: string) {
    ' ' in s
  }

  // ----- printing -----

  /** What comes before a modifier: nothing if the buffer has at most one character. */
  function Separator(buf: string): string {
    if |buf| > 1 && buf[|buf| - 1] != ' ' then " " else ""
  }

  predicate IsBare(m: Modifier) {
    m.value == "" && m.submodifiers == []
  }

  predicate NeedsBraces(m: Modifier) {
    HasSpace(m.value) || m.submodifiers != []
  }

  function ValueText(value: string): string {
    if value == "" then "." else if HasSpace(value) then "{" + value + "}" else value
  }

  /** The buffer with one more modifier. */
  function Written(buf: string, m: Modifier): string
    decreases m, 1
  {
    if m.name == "" then buf
    else
      var named := buf + Separator(buf) + m.name;
      if m.rawValue != "" then named + (if HasSpace(m.rawValue) then "={" + m.rawValue + "}" else "=" + m.rawValue)
      else if IsBare(m) then named
      else
        WrittenAll(named + Opening(m) + ValueText(m.value), m.submodifiers) + Closing(m)
  }

  function Opening(m: Modifier): string {
    if NeedsBraces(m) then "={" else "="
  }

  function Closing(m: Modifier): string {
    if NeedsBraces(m) then "}" else ""
  }

  function WrittenAll(buf: string, ms: seq<Modifier>): string
    decreases ms, 0
  {
    if ms == [] then buf else Written(WrittenAll(buf, ms[..|ms| - 1]), ms[|ms| - 1])
  }

  class Buffer {
    var text: string

    constructor ()
      ensures text == ""
    {
      text := "";
    }

    method WriteString(s: string)
      modifies this
      ensures text == old(text) + s
    {
      text := text + s;
    }
  }

  method WriteBuf(m: Modifier, buf: Buffer)
    modifies buf
    ensures buf.text == Written(old(buf.text), m)
    decreases m
  {
    if m.name == "" {
      return;
    }
    var last := |buf.text| - 1;
    if last > 0 && buf.text[last] != ' ' {
      buf.WriteString(" ");
    }
    buf.WriteString(m.name);
    if m.rawValue != "" {
      if HasSpace(m.rawValue) {
        buf.WriteString("={" + m.rawValue + "}");
      } else {
        buf.WriteString("=" + m.rawValue);
      }
      return;
    }
    if m.value == "" && |m.submodifiers| == 0 {
      return;
    }
    var valueHasSpace := HasSpace(m.value);
    buf.WriteString("=");
    if valueHasSpace || |m.submodifiers| > 0 {
      buf.WriteString("{");
    }
    if m.value == "" {
      buf.WriteString(".");
    } else if valueHasSpace {
      buf.WriteString("{" + m.value + "}");
    } else {
      buf.WriteString(m.value);
    }
    ghost var valued := buf.text;
    assert valued == old(buf.text) + Separator(old(buf.text)) + m.name + Opening(m) + ValueText(m.value);
    for i := 0 to |m.submodifiers|
      invariant buf.text == WrittenAll(valued, m.submodifiers[..i])
    {
      WriteBuf(m.submodifiers[i], buf);
      assert m.submodifiers[..i + 1][..i] == m.submodifiers[..i];
    }
    assert m.submodifiers[..|m.submodifiers|] == m.submodifiers;
    assert buf.text + "" == buf.text;
    if valueHasSpace || |m.submodifiers| > 0 {
      buf.WriteString("}");
    }
  }

  method ToString(ms: seq<Modifier>) returns (s: string)
    ensures s == WrittenAll("", ms)
  {
    var buf := new Buffer();
    for i := 0 to |ms|
      invariant fresh(buf) && buf.text == WrittenAll("", ms[..i])
    {
      WriteBuf(ms[i], buf);
      assert ms[..i + 1][..i] == ms[..i];
    }
    assert ms[..|ms|] == ms;
    return buf.text;
  }

  // ----- reading a value -----

  function TrimLeft(s: string): (r: string)
    ensures |r| <= |s| && (r != "" ==> r[0] != ' ')
  {
    if s != "" && s[0] == ' ' then TrimLeft(s[1..]) else s
  }

  /** Up to the first space outside braces, if braces count: where it is, and how many braces
      are open there or at the end. */
  function Scan(s: string, i: nat, quoted: bool, level: nat): (r: (nat, nat))
    requires i <= |s|
    ensures i <= r.0 <= |s| && (r.0 < |s| ==> s[r.0] == ' ' && r.1 == 0)
    decreases |s| - i
  {
    if i == |s| then (i, level)
    else if s[i] == ' ' && level == 0 then (i, level)
    else if quoted && s[i] == '{' then Scan(s, i + 1, quoted, level + 1)
    else if quoted && s[i] == '}' && level > 0 then Scan(s, i + 1, quoted, level - 1)
    else Scan(s, i + 1, quoted, level)
  }

  /** The first value of a text, and what comes after it; None if a brace is not closed. */
  function PopValue(text: string): (r: Option<(string, string)>)
    ensures r.Some? ==> |r.value.0| <= |text| && |r.value.1| <= |text|
    ensures r.Some? && text != "" ==> |r.value.1| < |text|
  {
    var s := TrimLeft(text);
    if s == "" then Some(("", ""))
    else
      var quoted := s[0] == '{';
      var r := Scan(s, 0, quoted, 0);
      if r.1 > 0 then None
      else
        ScanMoves(s, quoted);
        ScanCloses(s, quoted);
        Some((if quoted then s[1..r.0 - 1] else s[..r.0], s[r.0..]))
  }

  lemma ScanMoves(s: string, quoted: bool)
    requires s != "" && s[0] != ' '
    ensures Scan(s, 0, quoted, 0).0 >= 1
  {
  }

  /** A text that starts with a brace and closes it has at least two characters. */
  lemma ScanCloses(s: string, quoted: bool)
    requires s != "" && s[0] != ' ' && (quoted ==> s[0] == '{') && Scan(s, 0, quoted, 0).1 == 0
    ensures quoted ==> Scan(s, 0, quoted, 0).0 >= 2
  {
    if quoted && |s| > 1 {
      assert Scan(s, 0, quoted, 0) == Scan(s, 1, quoted, 1);
      assert Scan(s, 1, quoted, 1).0 >= 2;
    }
  }

  method ReadValue(text: string) returns (r: Option<(string, string)>)
    ensures r == PopValue(text)
  {
    var s := TrimLeft(text);
    if s == "" {
      return Some(("", ""));
    }
    var isBraceQuoted := s[0] == '{';
    var whitespaceIndex := -1;
    var bracelevel: nat := 0;
    ScanMoves(s, isBraceQuoted);
    var i := 0;
    while i < |s|
      invariant 0 <= i <= |s| && whitespaceIndex == -1
      invariant Scan(s, 0, isBraceQuoted, 0) == Scan(s, i, isBraceQuoted, bracelevel)
    {
      if s[i] == ' ' && bracelevel == 0 {
        whitespaceIndex := i;
        break;
      }
      if isBraceQuoted {
        if s[i] == '{' {
          bracelevel := bracelevel + 1;
        } else if s[i] == '}' {
          if bracelevel > 0 {
            bracelevel := bracelevel - 1;
          }
        }
      }
      i := i + 1;
    }
    if bracelevel > 0 {
      return None;
    }
    ScanCloses(s, isBraceQuoted);
    var value, remainder := s, "";
    if whitespaceIndex > 0 {
      value, remainder := s[..whitespaceIndex], s[whitespaceIndex..];
    }
    assert s[..|s|] == s && s[|s|..] == "";
    if isBraceQuoted {
      assert s[..i][1..i - 1] == s[1..i - 1];
      value := value[1..|value| - 1];
    }
    return Some((value, remainder));
  }

  // ----- reading a modifier -----

  /** Where the name ends: at a space, an equals sign, or the end. */
  function NameEnd(s: string, i: nat): (end: nat)
    requires i <= |s|
    ensures i <= end <= |s| && (end < |s| ==> s[end] == ' ' || s[end] == '=')
    ensures forall k :: i <= k < end ==> s[k] != ' ' && s[k] != '='
    decreases |s| - i
  {
    if i == |s| || s[i] == ' ' || s[i] == '=' then i else NameEnd(s, i + 1)
  }

  function IndexOf(s: string, c: char): (i: nat)
    ensures i <= |s| && (i < |s| ==> s[i] == c) && forall k :: 0 <= k < i ==> s[k] != c
  {
    if s == "" || s[0] == c then 0 else 1 + IndexOf(s[1..], c)
  }

  function Split(s: string, c: char): seq<string>
    decreases |s|
  {
    var i := IndexOf(s, c);
    if i == |s| then [s] else [s[..i]] + Split(s[i + 1..], c)
  }

  /** A name may have dialects before it, with a colon. */
  function WithName(name: string, rawValue: string): Modifier {
    var i := IndexOf(name, ':');
    if i == |name| then Modifier([], name, rawValue, "", [])
    else Modifier(Split(name[..i], ','), name[i + 1..], rawValue, "", [])
  }

  /** The first modifier of a text, and what comes after it. Dialects are not split off a
      modifier whose equals sign is followed by a space. */
  function PopModifier(text: string): (r: Option<(Modifier, string)>)
    ensures r.Some? && text != "" ==> |r.value.1| < |text| && |r.value.0.rawValue| < |text|
  {
    var s := TrimLeft(text);
    if s == "" then Some((Modifier([], "", "", "", []), ""))
    else
      var end := NameEnd(s, 0);
      if end < |s| && s[end] == '=' then
        var rest := s[end + 1..];
        if rest != "" && rest[0] == ' ' then Some((Modifier([], s[..end], "", "", []), rest))
        else
          match PopValue(rest)
          case None => None
          case Some(v) => Some((WithName(s[..end], v.0), v.1))
      else Some((WithName(s[..end], ""), s[end..]))
  }

  method ReadModifier(text: string) returns (r: Option<(Modifier, string)>)
    ensures r == PopModifier(text)
  {
    var s := TrimLeft(text);
    if s == "" {
      return Some((Modifier([], "", "", "", []), ""));
    }
    var whitespaceIndex, equalsIndex := -1, -1;
    var i := 0;
    while i < |s|
      invariant 0 <= i <= |s| && whitespaceIndex == -1 && equalsIndex == -1
      invariant NameEnd(s, 0) == NameEnd(s, i)
    {
      if s[i] == ' ' {
        whitespaceIndex := i;
        break;
      }
      if s[i] == '=' {
        equalsIndex := i;
        break;
      }
      i := i + 1;
    }
    var name, rawValue, remainder := s, "", "";
    assert s[..|s|] == s && s[|s|..] == "";
    if equalsIndex >= 0 {
      name, remainder := s[..equalsIndex], s[equalsIndex + 1..];
      if |remainder| > 0 && remainder[0] == ' ' {
        return Some((Modifier([], name, "", "", []), remainder));
      }
      var v := ReadValue(remainder);
      if v == None {
        return None;
      }
      rawValue, remainder := v.value.0, v.value.1;
    } else if whitespaceIndex >= 0 {
      name, remainder := s[..whitespaceIndex], s[whitespaceIndex..];
    }
    var dialects: seq<string> := [];
    var colon := IndexOf(name, ':');
    if colon < |name| {
      dialects := Split(name[..colon], ',');
      name := name[colon + 1..];
    }
    return Some((Modifier(dialects, name, rawValue, "", []), remainder));
  }

  /** The modifiers of a text; those without a name are left out. */
  function ModifiersOf(s: string): (r: Option<seq<Modifier>>)
    ensures r.Some? ==> forall k :: 0 <= k < |r.value| ==> |r.value[k].rawValue| < |s|
    decreases |s|
  {
    if s == "" then Some([])
    else
      match PopModifier(s)
      case None => None
      case Some(p) =>
        match ModifiersOf(p.1)
        case None => None
        case Some(rest) => Some(if p.0.name == "" then rest else [p.0] + rest)
  }

  function Prepend(ms: seq<Modifier>, rest: Option<seq<Modifier>>): Option<seq<Modifier>> {
    match rest case None => None case Some(more) => Some(ms + more)
  }

  lemma PrependNext(ms: seq<Modifier>, m: Modifier, rest: Option<seq<Modifier>>)
    ensures Prepend(ms, Prepend([m], rest)) == Prepend(ms + [m], rest) && Prepend([], rest) == rest
  {
    if rest.Some? {
      assert ms + ([m] + rest.value) == ms + [m] + rest.value;
      assert [] + rest.value == rest.value;
    }
  }

  /** Each round takes at least one character, so that the loop ends on every text. */
  method NewModifiers(s: string) returns (ok: bool, ms: seq<Modifier>)
    ensures ok == ModifiersOf(s).Some? && (ok ==> ModifiersOf(s) == Some(ms))
  {
    ms := [];
    var remainder := s;
    PrependNext([], Modifier([], "", "", "", []), ModifiersOf(s));
    while remainder != ""
      invariant ModifiersOf(s) == Prepend(ms, ModifiersOf(remainder))
      decreases |remainder|
    {
      var p := ReadModifier(remainder);
      if p == None {
        return false, ms;
      }
      PrependNext(ms, p.value.0, ModifiersOf(p.value.1));
      remainder := p.value.1;
      if p.value.0.name == "" {
        continue;
      }
      ms := ms + [p.value.0];
    }
    assert ms + [] == ms;
    return true, ms;
  }

  // ----- reading the next level -----

  function Parsed(m: Modifier): (r: Option<Modifier>)
    ensures r.Some? && m.rawValue != "" ==> forall k :: 0 <= k < |r.value.submodifiers| ==>
        |r.value.submodifiers[k].rawValue| < |m.rawValue|
  {
    if m.rawValue == "" then Some(m)
    else
      match PopValue(m.rawValue)
      case None => None
      case Some(v) =>
        match ModifiersOf(v.1)
        case None => None
        case Some(subs) => Some(m.(value := v.0, submodifiers := subs))
  }

  method ParseRawValue(m: Modifier) returns (ok: bool, next: Modifier)
    ensures ok == Parsed(m).Some? && (ok ==> Parsed(m) == Some(next))
  {
    next := m;
    if m.rawValue == "" {
      return true, next;
    }
    var v := ReadValue(m.rawValue);
    if v == None {
      return false, next;
    }
    next := next.(value := v.value.0);
    var subs;
    ok, subs := NewModifiers(v.value.1);
    next := next.(submodifiers := subs);
  }

  /** Every level of a text: the tree it stands for. A modifier that is fresh from the parser
      has no submodifiers of its own. */
  function Tree(m: Modifier): Option<Modifier>
    decreases |m.rawValue|, 1
  {
    if m.rawValue == "" then Some(Modifier(m.dialects, m.name, "", "", []))
    else
      match Parsed(m)
      case None => None
      case Some(p) =>
        match Trees(p.submodifiers, |m.rawValue|)
        case None => None
        case Some(subs) => Some(Modifier(m.dialects, m.name, "", p.value, subs))
  }

  function Trees(ms: seq<Modifier>, bound: nat): Option<seq<Modifier>>
    requires forall k :: 0 <= k < |ms| ==> |ms[k].rawValue| < bound
    decreases bound, 0, |ms|
  {
    if ms == [] then Some([])
    else
      match (Tree(ms[0]), Trees(ms[1..], bound))
      case (Some(first), Some(rest)) => Some([first] + rest)
      case _ => None
  }

  function Read(s: string): Option<seq<Modifier>> {
    match ModifiersOf(s)
    case None => None
    case Some(ms) => Trees(ms, |s|)
  }
}
