/** The commands that look at or edit the history table without running scripts: touch, rm,
    mv and ls. */
module HistoryCommands {
  import opened Common
  import opened MigrationRunner

  // ----- which files count, and in what order -----

  /** The files that dump writes are not migrations. */
  predicate IsDump(filename: string) {
    Named(filename, "schema.sql") || Named(filename, "indexes.sql") || Named(filename, "constraints.sql")
  }

  /** The last element of the path is the name. */
  predicate Named(filename: string, name: string) {
    filename == name || HasSuffix(filename, "/" + name)
  }

  predicate IsMigration(filename: string) {
    HasSuffix(filename, ".sql") && !HasSuffix(filename, ".undo.sql") && !IsDump(filename)
  }

  function Select(files: seq<string>, repeatable: bool): seq<string> {
    if files == [] then []
    else
      var f := files[|files| - 1];
      Select(files[..|files| - 1], repeatable) + (if IsMigration(f) && IsRepeatable(f) == repeatable then [f] else [])
  }

  /** The migrations in the given order, repeatable ones last. */
  function SortAndFilter(files: seq<string>): seq<string> {
    Select(files, false) + Select(files, true)
  }

  method SortAndFilterFilenames(filenames: seq<string>) returns (result: seq<string>)
    ensures result == SortAndFilter(filenames)
  {
    result := [];
    var repeatable: seq<string> := [];
    for i := 0 to |filenames|
      invariant result == Select(filenames[..i], false) && repeatable == Select(filenames[..i], true)
    {
      var filename := filenames[i];
      assert filenames[..i + 1][..i] == filenames[..i];
      if !HasSuffix(filename, ".sql") || HasSuffix(filename, ".undo.sql") {
        continue;
      }
      if IsDump(filename) {
        continue;
      }
      if IsRepeatable(filename) {
        repeatable := repeatable + [filename];
      } else {
        result := result + [filename];
      }
    }
    assert filenames[..|filenames|] == filenames;
    result := result + repeatable;
  }

  predicate Distinct<T(==)>(xs: seq<T>) {
    forall i, k :: 0 <= i < k < |xs| ==> xs[i] != xs[k]
  }

  lemma {:induction false} SelectMember(files: seq<string>, repeatable: bool)
    ensures forall f :: f in Select(files, repeatable) <==>
        f in files && IsMigration(f) && IsRepeatable(f) == repeatable
    ensures Distinct(files) ==> Distinct(Select(files, repeatable))
  {
    if files == [] {
    } else {
      var init, last := files[..|files| - 1], files[|files| - 1];
      assert files == init + [last];
      SelectMember(init, repeatable);
      if Distinct(files) {
        assert Distinct(init);
        forall i | 0 <= i < |Select(init, repeatable)| ensures Select(init, repeatable)[i] != last {
          assert Select(init, repeatable)[i] in init;
        }
      }
    }
  }

  /** Nothing is lost, nothing is doubled, and no repeatable script comes before one that is not. */
  lemma SortAndFilterSorts(files: seq<string>)
    ensures forall f :: f in SortAndFilter(files) <==> f in files && IsMigration(f)
    ensures forall i, k :: 0 <= i < k < |SortAndFilter(files)| && IsRepeatable(SortAndFilter(files)[i]) ==>
        IsRepeatable(SortAndFilter(files)[k])
    ensures Distinct(files) ==> Distinct(SortAndFilter(files))
  {
    SelectMember(files, false);
    SelectMember(files, true);
    var a, b := Select(files, false), Select(files, true);
    forall i | 0 <= i < |a| ensures !IsRepeatable(a[i]) {
      assert a[i] in a;
    }
    forall i | 0 <= i < |b| ensures IsRepeatable(b[i]) {
      assert b[i] in b;
    }
  }

  // ----- the order -----

  /** How many of some files are migrations of a kind. */
  function CountOf(files: seq<string>, repeatable: bool): nat {
    if files == [] then 0
    else
      var f := files[|files| - 1];
      CountOf(files[..|files| - 1], repeatable) + (if IsMigration(f) && IsRepeatable(f) == repeatable then 1 else 0)
  }

  /** The place that migration i gets: after those of its kind that come before it, and repeatable ones after all
      others. */
  function PlaceOf(files: seq<string>, i: nat): nat
    requires i < |files|
  {
    if IsRepeatable(files[i]) then CountOf(files, false) + CountOf(files[..i], true) else CountOf(files[..i], false)
  }

  lemma {:induction false} CountGrows(files: seq<string>, i: nat, k: nat, repeatable: bool)
    requires i <= k <= |files|
    ensures CountOf(files[..i], repeatable) <= CountOf(files[..k], repeatable)
    ensures i < k && IsMigration(files[i]) && IsRepeatable(files[i]) == repeatable ==>
              CountOf(files[..i], repeatable) < CountOf(files[..k], repeatable)
    decreases k - i
  {
    if i == k {
    } else {
      CountGrows(files, i, k - 1, repeatable);
      assert files[..k][..k - 1] == files[..k - 1] && files[..k][k - 1] == files[k - 1];
    }
  }

  lemma {:induction false} SelectAt(files: seq<string>, i: nat, repeatable: bool)
    requires i < |files| && IsMigration(files[i]) && IsRepeatable(files[i]) == repeatable
    ensures |Select(files, repeatable)| == CountOf(files, repeatable)
    ensures CountOf(files[..i], repeatable) < |Select(files, repeatable)|
    ensures Select(files, repeatable)[CountOf(files[..i], repeatable)] == files[i]
  {
    SelectCounts(files, repeatable);
    if i == |files| - 1 {
      SelectCounts(files[..i], repeatable);
    } else {
      SelectAt(files[..|files| - 1], i, repeatable);
      assert files[..|files| - 1][..i] == files[..i];
    }
  }

  lemma {:induction false} SelectCounts(files: seq<string>, repeatable: bool)
    ensures |Select(files, repeatable)| == CountOf(files, repeatable)
  {
    if files == [] {
    } else {
      SelectCounts(files[..|files| - 1], repeatable);
    }
  }

  lemma {:induction false} SelectOccurrences(files: seq<string>, repeatable: bool, f: string)
    ensures multiset(Select(files, repeatable))[f]
         == if IsMigration(f) && IsRepeatable(f) == repeatable then multiset(files)[f] else 0
  {
    if files == [] {
    } else {
      var init, last := files[..|files| - 1], files[|files| - 1];
      SelectOccurrences(init, repeatable, f);
      assert files == init + [last];
    }
  }

  /** Every migration is at its place, and occurs as often as it was given. */
  lemma SortAndFilterPlaces(files: seq<string>)
    ensures |SortAndFilter(files)| == CountOf(files, false) + CountOf(files, true)
    ensures forall i :: 0 <= i < |files| && IsMigration(files[i]) ==>
              PlaceOf(files, i) < |SortAndFilter(files)| && SortAndFilter(files)[PlaceOf(files, i)] == files[i]
    ensures forall f {:trigger multiset(SortAndFilter(files))[f]} ::
              multiset(SortAndFilter(files))[f] == if IsMigration(f) then multiset(files)[f] else 0
  {
    SelectCounts(files, false);
    SelectCounts(files, true);
    forall i | 0 <= i < |files| && IsMigration(files[i])
      ensures PlaceOf(files, i) < |SortAndFilter(files)| && SortAndFilter(files)[PlaceOf(files, i)] == files[i]
    {
      SelectAt(files, i, IsRepeatable(files[i]));
    }
    forall f ensures multiset(SortAndFilter(files))[f] == if IsMigration(f) then multiset(files)[f] else 0 {
      SelectOccurrences(files, false, f);
      SelectOccurrences(files, true, f);
      assert multiset(SortAndFilter(files)) == multiset(Select(files, false)) + multiset(Select(files, true));
    }
  }

  /** Place i of the files given is to be run before place k: it is of the same kind and comes first, or only the other
      one is repeatable. */
  predicate Precedes(files: seq<string>, i: nat, k: nat)
    requires i < |files| && k < |files|
  {
    if IsRepeatable(files[i]) == IsRepeatable(files[k]) then i < k else IsRepeatable(files[k])
  }

  /** Two migrations come in the order in which they are to be run. */
  lemma SortAndFilterOrders(files: seq<string>, i: nat, k: nat)
    requires i < |files| && k < |files| && IsMigration(files[i]) && IsMigration(files[k]) && Precedes(files, i, k)
    ensures PlaceOf(files, i) < PlaceOf(files, k) < |SortAndFilter(files)|
    ensures SortAndFilter(files)[PlaceOf(files, i)] == files[i] && SortAndFilter(files)[PlaceOf(files, k)] == files[k]
  {
    SortAndFilterPlaces(files);
    CountGrows(files, i, |files|, false);
    assert files[..|files|] == files;
    if i < k {
      CountGrows(files, i, k, IsRepeatable(files[i]));
    }
  }

  // ----- touch -----

  /** The history with the scripts marked as run, without having been run. */
  function Touched(history: map<string, Row>, files: seq<string>, checksum: string -> string): map<string, Row> {
    if files == [] then history
    else
      var f := files[|files| - 1];
      Touched(history, files[..|files| - 1],
              checksum)[f := Row(if IsRepeatable(f) then Some(checksum(f)) else None, true, true)]
  }

  /** The row producer overwrites one slice, and leaves the checksum alone for a script that is
      not repeatable: that the repeatable ones come last makes it null for the others. */
  method TouchRows(history: map<string, Row>, files: seq<string>,
                   checksum: string -> string) returns (rows: map<string, Row>)
    requires forall i, k :: 0 <= i < k < |files| && IsRepeatable(files[i]) ==> IsRepeatable(files[k])
    ensures rows == Touched(history, files, checksum)
  {
    rows := history;
    var sum: Option<string> := None;
    var i := 0;
    while i < |files|
      invariant 0 <= i <= |files|
      invariant rows == Touched(history, files[..i], checksum)
      invariant i < |files| && !IsRepeatable(files[i]) ==> sum == None
      invariant sum.Some? ==> i > 0 && IsRepeatable(files[i - 1])
    {
      var filename := files[i];
      assert files[..i + 1][..i] == files[..i];
      if IsRepeatable(filename) {
        sum := Some(checksum(filename));
      }
      rows := rows[filename := Row(sum, true, true)];
      i := i + 1;
    }
    assert files[..|files|] == files;
  }

  lemma {:induction false} TouchedRow(history: map<string, Row>, files: seq<string>, checksum: string -> string,
                                      f: string)
    ensures f in files ==> f in Touched(history, files, checksum)
                           && Touched(history, files, checksum)[f] == Row(if IsRepeatable(f) then Some(checksum(f))
                              else None, true, true)
    ensures f !in files ==> (f in Touched(history, files, checksum) <==> f in history)
                            && (f in history ==> Touched(history, files, checksum)[f] == history[f])
  {
    if files == [] {
    } else {
      var init, last := files[..|files| - 1], files[|files| - 1];
      assert files == init + [last];
      TouchedRow(history, init, checksum, f);
    }
  }

  // ----- rm and mv -----

  function Removed(history: map<string, Row>, files: seq<string>): map<string, Row> {
    map f | f in history && f !in files :: history[f]
  }

  /** The update fails without a word if the new name is taken. */
  function Moved(history: map<string, Row>, src: string, dest: string): map<string, Row> {
    if src !in history || (dest in history && dest != src) then history
    else (history - {src})[dest := history[src]]
  }

  /** A row that is removed leaves its script pending, and no other one. */
  lemma RemovedArePending(history: map<string, Row>, files: seq<string>, checksum: string -> string, f: string)
    ensures StatusOf(Removed(history, files), checksum, f)
         == if f in files then IsPending else StatusOf(history, checksum, f)
  {
  }

  /** A row that is moved to a name that is free says of the new name what it said of the old one, which is pending. */
  lemma MovedKeepsStatus(history: map<string, Row>, checksum: string -> string, src: string, dest: string, f: string)
    requires src in history && dest !in history && !IsRepeatable(src) && !IsRepeatable(dest)
    ensures StatusOf(Moved(history, src, dest), checksum, f)
         == if f == dest then StatusOf(history, checksum, src)
            else if f == src then IsPending else StatusOf(history, checksum, f)
  {
  }

  /** If the name is taken, or there is no such row, nothing changes. */
  lemma MovedOntoTaken(history: map<string, Row>, src: string, dest: string)
    requires src !in history || dest in history
    ensures Moved(history, src, dest) == history
  {
  }

  // ----- ls -----

  datatype Status = Applied | IsPending | HasFailed

  function StatusOf(history: map<string, Row>, checksum: string -> string, f: string): Status {
    if f !in history || !history[f].started then IsPending
    else if !history[f].success then HasFailed
    else if IsRepeatable(f)
        && checksum(f) != (if history[f].checksum.Some? then history[f].checksum.value else "") then IsPending
    else Applied
  }

  /** The scripts that ls shows by default, in order, with their status. */
  function Listed(history: map<string, Row>, checksum: string -> string, files: seq<string>): seq<(Status, string)> {
    if files == [] then []
    else
      var f := files[|files| - 1];
      Listed(history, checksum, files[..|files| - 1])
      + (if StatusOf(history, checksum, f) == Applied then [] else [(StatusOf(history, checksum, f), f)])
  }

  /** A file that is not applied has its line, after those of the files before it. */
  lemma {:induction false} ListedAt(history: map<string, Row>, checksum: string -> string, files: seq<string>, i: nat)
    requires i < |files| && StatusOf(history, checksum, files[i]) != Applied
    ensures var n := |Listed(history, checksum, files[..i])|;
      n < |Listed(history, checksum, files)|
      && Listed(history, checksum, files)[n] == (StatusOf(history, checksum, files[i]), files[i])
  {
    if i < |files| - 1 {
      ListedAt(history, checksum, files[..|files| - 1], i);
      assert files[..|files| - 1][..i] == files[..i];
    }
  }

  lemma {:induction false} ListedGrows(history: map<string, Row>, checksum: string -> string, files: seq<string>,
                                       i: nat, k: nat)
    requires i < k <= |files| && StatusOf(history, checksum, files[i]) != Applied
    ensures |Listed(history, checksum, files[..i])| < |Listed(history, checksum, files[..k])|
    decreases k
  {
    assert files[..k][..k - 1] == files[..k - 1] && files[..k][k - 1] == files[k - 1];
    if i < k - 1 {
      ListedGrows(history, checksum, files, i, k - 1);
    }
  }

  /** ls shows exactly the files that are not applied, each with its status, in their order. */
  lemma {:induction false} ListedExactly(history: map<string, Row>, checksum: string -> string, files: seq<string>)
    ensures forall line {:trigger line in Listed(history, checksum, files)} ::
              line in Listed(history, checksum, files) <==>
              line.1 in files && line.0 == StatusOf(history, checksum, line.1) && line.0 != Applied
  {
    if files == [] {
    } else {
      var init := files[..|files| - 1];
      ListedExactly(history, checksum, init);
      assert files == init + [files[|files| - 1]];
    }
  }

  lemma ListedInOrder(history: map<string, Row>, checksum: string -> string, files: seq<string>, i: nat, k: nat)
    requires i < k < |files|
    requires StatusOf(history, checksum, files[i]) != Applied && StatusOf(history, checksum, files[k]) != Applied
    ensures exists p, q :: 0 <= p < q < |Listed(history, checksum, files)|
                           && Listed(history, checksum, files)[p].1 == files[i]
                           && Listed(history, checksum, files)[q].1 == files[k]
  {
    ListedAt(history, checksum, files, i);
    ListedAt(history, checksum, files, k);
    ListedGrows(history, checksum, files, i, k);
  }

  method Ls(cfg: Config, history: map<string, Row>, files: seq<string>) returns (lines: seq<(Status, string)>)
    requires !cfg.skipHistory && Distinct(files)
    ensures lines == Listed(history, cfg.checksum, files)
  {
    var scripts := AllKnown(cfg, history, files);
    lines := [];
    for i := 0 to |scripts|
      invariant lines == Listed(history, cfg.checksum, files[..i])
    {
      var script := scripts[i];
      assert files[..i + 1][..i] == files[..i];
      assert files[i] !in files[i + 1..];
      var status := Applied;
      if !script.valid || !script.started {
        status := IsPending;
      } else if !script.success {
        status := HasFailed;
      } else if IsRepeatable(script.filename) {
        if cfg.checksum(script.filename) != script.checksum {
          status := IsPending;
        }
      }
      if status == Applied {
        continue;
      }
      lines := lines + [(status, script.filename)];
    }
    assert files[..|files|] == files;
  }
}
