/** The names of the checks that stand for NOT NULL: what Postgres keeps of them, and when two of them are the same. */
module PostgresNames {
  import opened Common
  import opened PostgresTables
  import opened PostgresStages
  import opened PostgresColumns

  /** A character in UTF-8 (section 3 of RFC 3629). */
  function Utf8(c: char): seq<int> {
    var n := c as int;
    if n <= 0x7F then [n]
    else if n <= 0x7FF then [0xC0 + n / 64, 0x80 + n % 64]
    else if n <= 0xFFFF then [0xE0 + n / 4096, 0x80 + n / 64 % 64, 0x80 + n % 64]
    else [0xF0 + n / 262144, 0x80 + n / 4096 % 64, 0x80 + n / 64 % 64, 0x80 + n % 64]
  }

  function Encoded(s: string): seq<int> {
    if s == "" then [] else Utf8(s[0]) + Encoded(s[1..])
  }

  lemma {:induction false} BytesAreEncoded(s: string)
    ensures Bytes(s) == |Encoded(s)|
  {
    if s == "" {
    } else {
      BytesAreEncoded(s[1..]);
    }
  }

  /** As many whole characters of the text as there is room for in 63 bytes. */
  ghost predicate KeptOf(name: string, text: string) {
    && name <= text && |Encoded(name)| <= 63
    && (|name| < |text| ==> |Encoded(text[..|name| + 1])| > 63)
  }

  lemma BytesFirst(c: char, s: string)
    ensures Bytes([c] + s) == Width(c) + Bytes(s)
  {
    assert ([c] + s)[1..] == s;
  }

  lemma {:induction false} CutFits(s: string, limit: nat)
    ensures CutTo(s, limit) <= s && Bytes(CutTo(s, limit)) <= limit
    ensures |CutTo(s, limit)| < |s| ==> Bytes(s[..|CutTo(s, limit)| + 1]) > limit
    decreases |s|
  {
    if s == "" {
    } else {
      var c, rest := s[0], s[1..];
      assert s == [c] + rest;
      if Width(c) > limit {
        assert s[..1] == [c] + "";
        BytesFirst(c, "");
      } else {
        var kept := CutTo(rest, limit - Width(c));
        CutFits(rest, limit - Width(c));
        assert CutTo(s, limit) == [c] + kept;
        BytesFirst(c, kept);
        if |kept| < |rest| {
          assert s[..|kept| + 2] == [c] + rest[..|kept| + 1];
          BytesFirst(c, rest[..|kept| + 1]);
        }
      }
    }
  }

  lemma {:induction false} PrefixHasFewer(a: string, b: string)
    requires a <= b
    ensures Bytes(a) <= Bytes(b)
  {
    if a != "" {
      PrefixHasFewer(a[1..], b[1..]);
    }
  }

  /** What is kept is the one name that is as long as can be. */
  lemma CutExactly(text: string, name: string)
    ensures Cut(text) == name <==> KeptOf(name, text)
  {
    var kept := Cut(text);
    CutFits(text, 63);
    BytesAreEncoded(kept);
    BytesAreEncoded(name);
    if |kept| < |text| {
      BytesAreEncoded(text[..|kept| + 1]);
    }
    if KeptOf(name, text) {
      if |name| < |kept| {
        BytesAreEncoded(text[..|name| + 1]);
        PrefixHasFewer(text[..|name| + 1], kept);
      } else if |kept| < |name| {
        PrefixHasFewer(text[..|kept| + 1], name);
      } else {
        assert name == text[..|name|] == kept;
      }
    }
  }

  /** The name belongs to the check of the column. */
  ghost predicate NamedFor(name: string, table: TableID, column: string) {
    KeptOf(name, table.name + "_" + column + "_not_null_check")
  }

  lemma CheckNameExactly(table: TableID, column: string, name: string)
    ensures CheckName(table, column) == name <==> NamedFor(name, table, column)
  {
    CutExactly(table.name + "_" + column + "_not_null_check", name);
  }

  /** Two names that are not cut are the same only for the same column. */
  lemma ShortNamesDiffer(table: TableID, a: string, b: string)
    requires |Encoded(table.name + "_" + a + "_not_null_check")| <= 63
    requires |Encoded(table.name + "_" + b + "_not_null_check")| <= 63
    ensures CheckName(table, a) == CheckName(table, b) <==> a == b
  {
    CheckNameExactly(table, a, table.name + "_" + a + "_not_null_check");
    CheckNameExactly(table, b, table.name + "_" + b + "_not_null_check");
    MiddleIsSame(table.name + "_", a, b, "_not_null_check");
  }

  lemma MiddleIsSame(before: string, a: string, b: string, after: string)
    ensures before + a + after == before + b + after ==> a == b
  {
    var x, y, n := before + a + after, before + b + after, |before|;
    assert x[n..] == a + after && x[n..n + |a|] == a;
    assert y[n..] == b + after && y[n..n + |b|] == b;
  }

  // ----- the names of a table's checks -----

  ghost predicate TakenBy(t: Table, table: TableID, column: string) {
    exists name :: name in t.constraints && NamedFor(name, table, column)
  }

  ghost predicate OneName(table: TableID, a: string, b: string) {
    exists name :: NamedFor(name, table, a) && NamedFor(name, table, b)
  }

  lemma TakenExactly(t: Table, table: TableID, column: string)
    ensures TakenBy(t, table, column) <==> CheckName(table, column) in t.constraints
  {
    forall name ensures CheckName(table, column) == name <==> NamedFor(name, table, column) {
      CheckNameExactly(table, column, name);
    }
  }

  lemma OneNameExactly(table: TableID, a: string, b: string)
    ensures OneName(table, a, b) <==> CheckName(table, a) == CheckName(table, b)
  {
    forall name
      ensures CheckName(table, a) == name <==> NamedFor(name, table, a)
      ensures CheckName(table, b) == name <==> NamedFor(name, table, b)
    {
      CheckNameExactly(table, a, name);
      CheckNameExactly(table, b, name);
    }
    assert NamedFor(CheckName(table, a), table, a) && NamedFor(CheckName(table, b), table, b);
  }

  lemma {:induction false} InChecks(table: TableID, cs: seq<string>, name: string)
    ensures name in ChecksOf(table, cs) <==> exists i :: 0 <= i < |cs| && CheckName(table, cs[i]) == name
    decreases |cs|
  {
    if cs == [] {
    } else {
      InChecks(table, cs[1..], name);
      if i :| 0 <= i < |cs[1..]| && CheckName(table, cs[1..][i]) == name {
        assert CheckName(table, cs[i + 1]) == name;
      }
      if i :| 0 <= i < |cs| && CheckName(table, cs[i]) == name {
        assert i > 0 ==> CheckName(table, cs[1..][i - 1]) == name;
      }
    }
  }

  /** The names of the checks are free exactly if none of them is the name of a constraint, and no two columns come to
      the same name. */
  lemma {:induction false} NamesFreeExactly(t: Table, table: TableID, cs: seq<string>)
    ensures CheckNamesFree(t, table, cs)
       <==> && (forall i :: 0 <= i < |cs| ==> !TakenBy(t, table, cs[i]))
            && (forall i, k :: 0 <= i < k < |cs| ==> !OneName(table, cs[i], cs[k]))
    decreases |cs|
  {
    if cs == [] {
    } else {
      var rest := cs[1..];
      NamesFreeExactly(t, table, rest);
      TakenExactly(t, table, cs[0]);
      InChecks(table, rest, CheckName(table, cs[0]));
      forall k | 0 <= k < |rest|
        ensures OneName(table, cs[0], rest[k]) <==> CheckName(table, cs[0]) == CheckName(table, rest[k])
      {
        OneNameExactly(table, cs[0], rest[k]);
      }
      assert forall k :: 0 < k < |cs| ==> cs[k] == rest[k - 1];
    }
  }
}
