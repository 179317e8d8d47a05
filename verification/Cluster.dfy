/** internal/cluster: one read of one node as plain data, the names a node answers to,
    and the canonical bytes a table's fingerprint is taken over. */
module Cluster {
  import opened Strings
  import opened Sorting
  import opened Findings

  /** A server value: its text without surrounding blanks, and the number the text parses to. */
  datatype Cell = Cell(text: string, number: Option<real>)

  /** One read of one node. `aliases` are the advertised address and name, host part only.
      An absent `appTables` means the schemas were not read; an empty one, that there are none. */
  datatype Snapshot = Snapshot(
    node: string,
    at: int,
    err: string,
    status: map<string, Cell>,
    vars: map<string, Cell>,
    options: map<string, Cell>,
    aliases: seq<string>,
    sysTables: map<string, string>,
    appTables: Option<map<string, string>>)
  {
    predicate Readable() {
      err == ""
    }

    /** A missing or unparseable value is not a zero. */
    function Float(key: string): Option<real> {
      if key in status then status[key].number else None
    }

    /** MySQL's spellings of a boolean, status variable first. */
    function Bool(key: string): Option<bool> {
      if key in status then Truth(status[key].text)
      else if key in vars then Truth(vars[key].text)
      else None
    }
  }

  function Truth(text: string): Option<bool> {
    var t := Fold(text);
    if t == "on" || t == "1" || t == "yes" || t == "true" then Some(true)
    else if t == "off" || t == "0" || t == "no" || t == "false" then Some(false)
    else None
  }

  function Names(snaps: seq<Snapshot>): seq<string> {
    seq(|snaps|, i requires 0 <= i < |snaps| => snaps[i].node)
  }

  // ----- the names a node answers to

  ghost predicate StrictlyAscending(s: seq<string>) {
    forall i, j :: 0 <= i < j < |s| ==> AtMost(s[i], s[j]) && s[i] != s[j]
  }

  /** Filters over the backing array it reads from: the write index never passes the read
      index. On sorted input what is left in the first `kept` slots is strictly ascending. */
  method Dedupe(a: array<string>) returns (kept: nat)
    requires SortedBy(AtMost, a[..])
    modifies a
    ensures kept <= a.Length
    ensures StrictlyAscending(a[..kept])
    ensures forall x :: x in a[..kept] <==> x != "" && x in old(a[..])
  {
    ghost var was := a[..];
    ghost var out: seq<string> := [];
    kept := 0;
    var last := "";
    var i := 0;
    while i < a.Length
      invariant 0 <= kept <= i <= a.Length
      invariant forall k :: i <= k < a.Length ==> a[k] == was[k]
      invariant a[..kept] == out
      invariant DedupedTo(was, i, out, last)
    {
      var v := a[i];
      if v == "" || (i > 0 && v == last) {
        DedupeSkip(was, i, out, last);
      } else {
        DedupeStep(was, i, out, last);
        out := out + [v];
        a[kept] := v;
        kept := kept + 1;
        last := v;
      }
      i := i + 1;
    }
    assert was[..a.Length] == was;
  }

  ghost predicate DedupedTo(was: seq<string>, i: nat, out: seq<string>, last: string)
    requires i <= |was|
  {
    && StrictlyAscending(out)
    && (forall x :: x in out <==> x != "" && x in was[..i])
    && last == if out == [] then "" else out[|out| - 1]
  }

  lemma DedupeSkip(was: seq<string>, i: nat, out: seq<string>, last: string)
    requires i < |was| && DedupedTo(was, i, out, last)
    requires was[i] == "" || was[i] == last
    ensures DedupedTo(was, i + 1, out, last)
  {
    assert was[..i + 1] == was[..i] + [was[i]];
  }

  lemma DedupeStep(was: seq<string>, i: nat, out: seq<string>, last: string)
    requires SortedBy(AtMost, was) && i < |was| && DedupedTo(was, i, out, last)
    requires was[i] != "" && (i > 0 ==> was[i] != last)
    ensures DedupedTo(was, i + 1, out + [was[i]], was[i])
  {
    var v := was[i];
    assert was[..i + 1] == was[..i] + [v];
    forall k | 0 <= k < |out|
      ensures AtMost(out[k], v) && out[k] != v
    {
      assert out[k] in was[..i];
      var p :| 0 <= p < i && was[p] == out[k];
      assert AtMost(was[p], was[i]);
      assert last in out;
      var q :| 0 <= q < i && was[q] == last;
      assert AtMost(was[q], was[i]);
      if out[k] == v {
        AtMostAntisymmetric(last, v);
        assert false;
      }
    }
  }

  ghost function AddressSet(s: Snapshot): set<string> {
    (set x | x in [s.node] + s.aliases) - {""}
  }

  /** Every name the node might be known by: sorted, without blanks, each once. */
  method Addresses(s: Snapshot) returns (names: seq<string>)
    ensures names == Listing(AddressSet(s))
    ensures forall x :: x in names <==> x != "" && (x == s.node || x in s.aliases)
  {
    var all := [s.node] + s.aliases;
    var sorted := SortStrings(all);
    StringOrder();
    SortIsStable(AtMost, all);
    SortContents(AtMost, all);
    var a := new string[|sorted|](i requires 0 <= i < |sorted| => sorted[i]);
    assert a[..] == sorted;
    var kept := Dedupe(a);
    names := a[..kept];
    AscendingIsListing(names, AddressSet(s));
  }

  lemma {:induction false} AscendingIsListing(r: seq<string>, s: set<string>)
    requires StrictlyAscending(r) && forall x :: x in r <==> x in s
    ensures r == Listing(s)
  {
    assert multiset(r) == multiset(s) by {
      forall x
        ensures multiset(r)[x] == multiset(s)[x]
      {
        DistinctCount(r, x);
      }
    }
    SortGivesListing(r, s);
    SortOfSorted(AtMost, r);
  }

  lemma {:induction false} DistinctCount(r: seq<string>, x: string)
    requires StrictlyAscending(r)
    ensures multiset(r)[x] == if x in r then 1 else 0
  {
    if r != [] {
      DistinctCount(r[1..], x);
      assert r == [r[0]] + r[1..];
      assert forall i :: 0 < i < |r| ==> r[i] != r[0];
    }
  }

  // ----- fingerprints

  datatype Column = Column(name: string, ordinal: nat, colType: string, nullable: string, key: string, def: string)

  const BAR := ['|']

  /** `%s|%d|%s|%s|%s|%s` */
  function ColumnRow(c: Column): string {
    c.name + BAR + (Decimal(c.ordinal) + BAR + (c.colType + BAR + (c.nullable + BAR + (c.key + BAR + c.def))))
  }

  /** Only the default may hold a bar; it comes last. */
  predicate BarFree(c: Column) {
    '|' !in c.name && '|' !in c.colType && '|' !in c.nullable && '|' !in c.key
  }

  lemma RowInjective(c: Column, d: Column)
    requires BarFree(c) && BarFree(d)
    ensures ColumnRow(c) == ColumnRow(d) <==> c == d
  {
    if ColumnRow(c) == ColumnRow(d) {
      NameAndOrdinal(c, d);
      SplitUnique(c.colType, d.colType, c.nullable + BAR + (c.key + BAR + c.def),
                  d.nullable + BAR + (d.key + BAR + d.def), '|');
      SplitUnique(c.nullable, d.nullable, c.key + BAR + c.def, d.key + BAR + d.def, '|');
      SplitUnique(c.key, d.key, c.def, d.def, '|');
    }
  }

  function AfterOrdinal(c: Column): string {
    c.colType + BAR + (c.nullable + BAR + (c.key + BAR + c.def))
  }

  lemma NameAndOrdinal(c: Column, d: Column)
    requires '|' !in c.name && '|' !in d.name && ColumnRow(c) == ColumnRow(d)
    ensures c.name == d.name && c.ordinal == d.ordinal && AfterOrdinal(c) == AfterOrdinal(d)
  {
    SplitUnique(c.name, d.name, Decimal(c.ordinal) + BAR + AfterOrdinal(c),
                Decimal(d.ordinal) + BAR + AfterOrdinal(d), '|');
    SplitUnique(Decimal(c.ordinal), Decimal(d.ordinal), AfterOrdinal(c), AfterOrdinal(d), '|');
    DecimalInjective(c.ordinal, d.ordinal);
  }

  lemma SplitAtBar(s: string) returns (x: string, y: string)
    requires '|' in s
    ensures s == x + BAR + y && '|' !in x
  {
    var i :| 0 <= i < |s| && s[i] == '|' && '|' !in s[..i] by {
      FirstBar(s);
    }
    x, y := s[..i], s[i + 1..];
  }

  lemma {:induction false} FirstBar(s: string)
    requires '|' in s
    ensures exists i :: 0 <= i < |s| && s[i] == '|' && '|' !in s[..i]
  {
    if s[0] == '|' {
      assert '|' !in s[..0];
    } else {
      FirstBar(s[1..]);
      var i :| 0 <= i < |s[1..]| && s[1..][i] == '|' && '|' !in s[1..][..i];
      assert s[..i + 1] == [s[0]] + s[1..][..i];
      assert s[i + 1] == '|';
    }
  }

  /** Reading a row back is unambiguous exactly when no field after the ordinal holds a bar:
      any bar there can be read as a field separator instead. */
  lemma RowUnambiguousIff(c: Column)
    requires '|' !in c.name
    ensures (forall d: Column :: '|' !in d.name && ColumnRow(d) == ColumnRow(c) ==> d == c)
       <==> '|' !in c.colType && '|' !in c.nullable && '|' !in c.key && '|' !in c.def
  {
    if '|' !in c.colType && '|' !in c.nullable && '|' !in c.key && '|' !in c.def {
      forall d: Column | '|' !in d.name && ColumnRow(d) == ColumnRow(c)
        ensures d == c
      {
        NameAndOrdinal(c, d);
        SameBars(c, d);
        RowInjective(c, d);
      }
    } else {
      var d := OtherReading(c);
      assert '|' !in d.name && ColumnRow(d) == ColumnRow(c) && d != c;
    }
  }

  function Bars(s: string): nat {
    if s == "" then 0 else (if s[0] == '|' then 1 else 0) + Bars(s[1..])
  }

  lemma {:induction false} BarsAppend(a: string, b: string)
    ensures Bars(a + b) == Bars(a) + Bars(b)
  {
    if a == "" {
      assert a + b == b;
    } else {
      assert (a + b)[1..] == a[1..] + b;
      BarsAppend(a[1..], b);
    }
  }

  lemma {:induction false} BarsZero(s: string)
    ensures Bars(s) == 0 <==> '|' !in s
  {
    if s != "" {
      BarsZero(s[1..]);
      assert s == [s[0]] + s[1..];
    }
  }

  lemma BarsAfterOrdinal(c: Column)
    ensures Bars(AfterOrdinal(c)) == 3 + Bars(c.colType) + Bars(c.nullable) + Bars(c.key) + Bars(c.def)
  {
    var r2 := c.key + BAR + c.def;
    var r1 := c.nullable + BAR + r2;
    BarsAppend(c.key + BAR, c.def);
    BarsAppend(c.key, BAR);
    BarsAppend(c.nullable + BAR, r2);
    BarsAppend(c.nullable, BAR);
    BarsAppend(c.colType + BAR, r1);
    BarsAppend(c.colType, BAR);
    assert Bars(BAR) == 1;
  }

  lemma SameBars(c: Column, d: Column)
    requires AfterOrdinal(c) == AfterOrdinal(d)
    requires '|' !in c.colType && '|' !in c.nullable && '|' !in c.key && '|' !in c.def
    ensures '|' !in d.colType && '|' !in d.nullable && '|' !in d.key && '|' !in d.def
  {
    BarsAfterOrdinal(c);
    BarsAfterOrdinal(d);
    BarsZero(c.colType);
    BarsZero(c.nullable);
    BarsZero(c.key);
    BarsZero(c.def);
    BarsZero(d.colType);
    BarsZero(d.nullable);
    BarsZero(d.key);
    BarsZero(d.def);
  }

  lemma OtherReading(c: Column) returns (d: Column)
    requires '|' in c.colType || '|' in c.nullable || '|' in c.key || '|' in c.def
    ensures d.name == c.name && d != c && ColumnRow(d) == ColumnRow(c)
  {
    if '|' in c.colType {
      var x, y := SplitAtBar(c.colType);
      d := c.(colType := x, nullable := y, key := c.nullable, def := c.key + BAR + c.def);
      assert |d.colType| < |c.colType|;
      assert AfterOrdinal(d) == AfterOrdinal(c);
    } else if '|' in c.nullable {
      var x, y := SplitAtBar(c.nullable);
      d := c.(nullable := x, key := y, def := c.key + BAR + c.def);
      assert |d.nullable| < |c.nullable|;
      assert AfterOrdinal(d) == AfterOrdinal(c);
    } else if '|' in c.key {
      var x, y := SplitAtBar(c.key);
      d := c.(key := x, def := y + BAR + c.def);
      assert |d.key| < |c.key|;
      assert AfterOrdinal(d) == AfterOrdinal(c);
    } else {
      var x, y := SplitAtBar(c.def);
      d := c.(colType := c.colType + BAR + c.nullable, nullable := c.key, key := x, def := y);
      assert |d.colType| > |c.colType|;
      assert AfterOrdinal(d) == AfterOrdinal(c);
    }
  }

  const NEWLINE := ['\n']

  function Lines(rows: seq<string>): string {
    if rows == [] then "" else rows[0] + NEWLINE + Lines(rows[1..])
  }

  /** The bytes handed to the hash. */
  function Encoded(rows: seq<string>): string {
    Lines(SortStrings(rows))
  }

  /** Sorts its argument in place, then writes each row and a newline to the hash. */
  method FingerprintInput(rows: array<string>) returns (bytes: string)
    modifies rows
    ensures bytes == Encoded(old(rows[..]))
    ensures rows[..] == SortStrings(old(rows[..]))
  {
    StringOrder();
    SortInPlace(rows, AtMost);
    ghost var sorted := rows[..];
    bytes := "";
    for i := 0 to rows.Length
      invariant rows[..] == sorted
      invariant bytes + Lines(sorted[i..]) == Lines(sorted)
    {
      assert sorted[i..][1..] == sorted[i + 1..];
      assert bytes + (sorted[i] + NEWLINE + Lines(sorted[i + 1..]))
          == bytes + sorted[i] + NEWLINE + Lines(sorted[i + 1..]);
      bytes := bytes + rows[i] + NEWLINE;
    }
    assert sorted[rows.Length..] == [];
  }

  ghost predicate NewlineFree(rows: seq<string>) {
    forall r :: r in rows ==> '\n' !in r
  }

  lemma {:induction false} LinesInjective(a: seq<string>, b: seq<string>)
    requires NewlineFree(a) && NewlineFree(b) && Lines(a) == Lines(b)
    ensures a == b
  {
    if a == [] {
      assert b == [] || |Lines(b)| >= 1;
    } else if b != [] {
      SplitUnique(a[0], b[0], Lines(a[1..]), Lines(b[1..]), '\n');
      LinesInjective(a[1..], b[1..]);
      assert a == [a[0]] + a[1..] && b == [b[0]] + b[1..];
    }
  }

  /** Canonical and injective: equal bytes exactly for equal multisets of rows. */
  lemma EncodingDecidesRows(a: seq<string>, b: seq<string>)
    requires NewlineFree(a) && NewlineFree(b)
    ensures Encoded(a) == Encoded(b) <==> multiset(a) == multiset(b)
  {
    SortStringsCanonical(a, b);
    SortContents(AtMost, a);
    SortContents(AtMost, b);
    if Encoded(a) == Encoded(b) {
      LinesInjective(SortStrings(a), SortStrings(b));
    }
  }

  /** A row as the lines it prints. */
  function Broken(row: string): (r: seq<string>)
    ensures r != [] && forall x :: x in r ==> '\n' !in x
  {
    if row == "" then [""]
    else
      var rest := Broken(row[1..]);
      if row[0] == '\n' then [""] + rest else [[row[0]] + rest[0]] + rest[1..]
  }

  function Atoms(rows: seq<string>): (r: seq<string>)
    ensures NewlineFree(r)
  {
    if rows == [] then [] else Broken(rows[0]) + Atoms(rows[1..])
  }

  lemma {:induction false} LinesAppend(a: seq<string>, b: seq<string>)
    ensures Lines(a + b) == Lines(a) + Lines(b)
  {
    if a == [] {
      assert a + b == b;
    } else {
      assert (a + b)[1..] == a[1..] + b;
      LinesAppend(a[1..], b);
    }
  }

  lemma {:induction false} BrokenPrints(row: string)
    ensures Lines(Broken(row)) == row + NEWLINE
  {
    if row == "" {
      assert [""][1..] == [];
    } else {
      BrokenPrints(row[1..]);
      var rest := Broken(row[1..]);
      if row[0] == '\n' {
        assert ([""] + rest)[1..] == rest;
      } else {
        var h := [row[0]] + rest[0];
        assert ([h] + rest[1..])[1..] == rest[1..];
        assert h + NEWLINE + Lines(rest[1..]) == [row[0]] + (rest[0] + NEWLINE + Lines(rest[1..]));
      }
      assert row == [row[0]] + row[1..];
    }
  }

  lemma {:induction false} AtomsPrint(rows: seq<string>)
    ensures Lines(Atoms(rows)) == Lines(rows)
  {
    if rows != [] {
      AtomsPrint(rows[1..]);
      BrokenPrints(rows[0]);
      LinesAppend(Broken(rows[0]), Atoms(rows[1..]));
    }
  }

  lemma {:induction false} AtomsOfFree(rows: seq<string>)
    requires NewlineFree(rows)
    ensures Atoms(rows) == rows
  {
    AtomsPrint(rows);
    LinesInjective(Atoms(rows), rows);
  }

  /** For any rows: equal bytes exactly when the sorted rows break into the same lines. */
  lemma EncodingEqualIff(a: seq<string>, b: seq<string>)
    ensures Encoded(a) == Encoded(b) <==> Atoms(SortStrings(a)) == Atoms(SortStrings(b))
  {
    AtomsPrint(SortStrings(a));
    AtomsPrint(SortStrings(b));
    if Encoded(a) == Encoded(b) {
      LinesInjective(Atoms(SortStrings(a)), Atoms(SortStrings(b)));
    }
  }

  lemma SortedFree(b: seq<string>)
    requires NewlineFree(b)
    ensures NewlineFree(SortStrings(b)) && SortedBy(AtMost, SortStrings(b))
  {
    StringOrder();
    SortContents(AtMost, b);
    SortIsStable(AtMost, b);
  }

  /** Rows share their bytes with some rows free of newlines exactly when the lines they break
      into come out in ascending order, and then with one multiset of such rows only. */
  lemma NewlineReadIff(a: seq<string>)
    ensures (exists b :: NewlineFree(b) && Encoded(b) == Encoded(a)) <==> SortedBy(AtMost, Atoms(SortStrings(a)))
    ensures forall b :: NewlineFree(b) && Encoded(b) == Encoded(a) ==> multiset(b) == multiset(Atoms(SortStrings(a)))
  {
    var atoms := Atoms(SortStrings(a));
    forall b | NewlineFree(b) && Encoded(b) == Encoded(a)
      ensures SortedBy(AtMost, atoms) && multiset(b) == multiset(atoms)
    {
      SortedFree(b);
      AtomsOfFree(SortStrings(b));
      EncodingEqualIff(a, b);
      SortContents(AtMost, b);
    }
    if SortedBy(AtMost, atoms) {
      SortOfSorted(AtMost, atoms);
      AtomsOfFree(atoms);
      EncodingEqualIff(a, atoms);
    }
  }

  function Rows(cs: seq<Column>): seq<string> {
    if cs == [] then [] else [ColumnRow(cs[0])] + Rows(cs[1..])
  }

  ghost predicate CleanColumns(cs: seq<Column>) {
    forall c :: c in cs ==> BarFree(c) && '\n' !in ColumnRow(c)
  }

  /** Two tables feed the hash the same bytes exactly when they have the same column
      definitions, in whatever order the server listed them. */
  lemma {:induction false} EncodingDecidesColumns(a: seq<Column>, b: seq<Column>)
    requires CleanColumns(a) && CleanColumns(b)
    ensures Encoded(Rows(a)) == Encoded(Rows(b)) <==> multiset(a) == multiset(b)
  {
    RowsMembers(a);
    RowsMembers(b);
    EncodingDecidesRows(Rows(a), Rows(b));
    forall c
      ensures multiset(Rows(a)) == multiset(Rows(b)) ==> multiset(a)[c] == multiset(b)[c]
    {
      if BarFree(c) {
        RowCount(a, c);
        RowCount(b, c);
      }
    }
    if multiset(a) == multiset(b) {
      RowsPermuted(a, b);
    }
  }

  /** Column c with a default that goes on, on a new line, like the row of d. */
  function RunOn(c: Column, d: Column): Column {
    c.(def := c.def + NEWLINE + ColumnRow(d))
  }

  lemma RunOnRow(c: Column, d: Column)
    ensures ColumnRow(RunOn(c, d)) == ColumnRow(c) + NEWLINE + ColumnRow(d)
  {
    DefaultLast(c, c.def);
    DefaultLast(c, c.def + NEWLINE + ColumnRow(d));
  }

  lemma DefaultLast(c: Column, def: string)
    ensures ColumnRow(c.(def := def))
         == (c.name + BAR + (Decimal(c.ordinal) + BAR + (c.colType + BAR + (c.nullable + BAR + (c.key + BAR))))) + def
  {
  }

  lemma {:induction false} BrokenAt(x: string, y: string)
    requires '\n' !in x && '\n' !in y
    ensures Broken(x + NEWLINE + y) == [x, y]
  {
    BrokenPrints(x + NEWLINE + y);
    assert [x, y][1..] == [y] && [y][1..] == [];
    assert Lines([y]) == y + NEWLINE + Lines([]) == y + NEWLINE;
    assert Lines([x, y]) == x + NEWLINE + Lines([y]);
    assert x + NEWLINE + (y + NEWLINE) == x + NEWLINE + y + NEWLINE;
    LinesInjective(Broken(x + NEWLINE + y), [x, y]);
  }

  /** One column and two give the same bytes exactly when the two rows are in order. */
  lemma NewlineCollisionIff(c: Column, d: Column)
    requires '\n' !in ColumnRow(c) && '\n' !in ColumnRow(d)
    ensures Encoded(Rows([RunOn(c, d)])) == Encoded(Rows([c, d])) <==> AtMost(ColumnRow(c), ColumnRow(d))
    ensures multiset([RunOn(c, d)]) != multiset([c, d])
  {
    var x, y := ColumnRow(c), ColumnRow(d);
    RowsOne(RunOn(c, d));
    RowsTwo(c, d);
    RunOnRow(c, d);
    BrokenAt(x, y);
    OneRowSorted(x + NEWLINE + y);
    TwoRowsSorted(x, y);
    AtomsOfFree(SortStrings([x, y]));
    EncodingEqualIff([x + NEWLINE + y], [x, y]);
    assert |multiset([RunOn(c, d)])| == 1 && |multiset([c, d])| == 2;
  }

  lemma RowsOne(c: Column)
    ensures Rows([c]) == [ColumnRow(c)]
  {
    assert [c][1..] == [];
  }

  lemma RowsTwo(c: Column, d: Column)
    ensures Rows([c, d]) == [ColumnRow(c), ColumnRow(d)]
  {
    assert [c, d][1..] == [d];
    RowsOne(d);
  }

  lemma {:induction false} OneRowSorted(row: string)
    ensures SortStrings([row]) == [row] && Atoms([row]) == Broken(row)
  {
    assert [row][1..] == [];
    SortOfSorted(AtMost, [row]);
  }

  lemma {:induction false} TwoRowsSorted(x: string, y: string)
    ensures SortStrings([x, y]) == if AtMost(x, y) then [x, y] else [y, x]
    ensures SortStrings([x, y]) == [x, y] ==> AtMost(x, y)
  {
    assert [x, y][1..] == [y];
    OneRowSorted(y);
    AtMostReflexive(x);
    assert [y][1..] == [] && Insert(AtMost, x, []) == [x];
    assert SortStrings([x, y]) == Insert(AtMost, x, [y]);
    assert !AtMost(x, y) ==> [y, x] != [x, y];
  }

  lemma {:induction false} RowsMembers(cs: seq<Column>)
    ensures forall r :: r in Rows(cs) <==> exists c :: c in cs && ColumnRow(c) == r
  {
    if cs != [] {
      RowsMembers(cs[1..]);
      assert cs == [cs[0]] + cs[1..];
      forall r
        ensures r in Rows(cs) <==> exists c :: c in cs && ColumnRow(c) == r
      {
        if r in Rows(cs[1..]) {
          var c :| c in cs[1..] && ColumnRow(c) == r;
          assert c in cs;
        }
        if r == ColumnRow(cs[0]) {
          assert cs[0] in cs;
        }
      }
    }
  }

  lemma {:induction false} RowCount(cs: seq<Column>, c: Column)
    requires BarFree(c) && forall d :: d in cs ==> BarFree(d)
    ensures multiset(Rows(cs))[ColumnRow(c)] == multiset(cs)[c]
  {
    if cs != [] {
      assert cs == [cs[0]] + cs[1..];
      RowCount(cs[1..], c);
      RowInjective(cs[0], c);
    }
  }

  lemma {:induction false} RowsAppend(a: seq<Column>, b: seq<Column>)
    ensures Rows(a + b) == Rows(a) + Rows(b)
  {
    if a == [] {
      assert a + b == b;
    } else {
      assert (a + b)[1..] == a[1..] + b;
      RowsAppend(a[1..], b);
    }
  }

  lemma {:induction false} RowsAround(l: seq<Column>, c: Column, r: seq<Column>)
    ensures multiset(Rows(Around(l, c, r))) == multiset(Rows(l + r)) + multiset{ColumnRow(c)}
  {
    RowsAppend(l + [c], r);
    RowsAppend(l, [c]);
    RowsAppend(l, r);
    RowsOne(c);
  }

  lemma {:induction false} RowsPermuted(a: seq<Column>, b: seq<Column>)
    requires multiset(a) == multiset(b)
    ensures multiset(Rows(a)) == multiset(Rows(b))
  {
    var f := (s: seq<Column>) => multiset(Rows(s));
    var add := (m: multiset<string>, c: Column) => m + multiset{ColumnRow(c)};
    forall l, c, r
      ensures f(Around(l, c, r)) == add(f(l + r), c)
    {
      RowsAround(l, c, r);
    }
    OrderIrrelevant(f, add, a, b);
  }

  // ----- reading values

  /** A number is read from the status alone; a boolean from the status, or else the variables, in
      any of MySQL's spellings and any case. */
  lemma ValuesRead(s: Snapshot, key: string)
    ensures s.Float(key) == if key in s.status then s.status[key].number else None
    ensures s.Bool(key) == Some(true) <==>
            exists text :: SaidBy(s, key, text) && OneOf(text, "ON", "1", "YES", "TRUE")
    ensures s.Bool(key) == Some(false) <==>
            exists text :: SaidBy(s, key, text) && OneOf(text, "OFF", "0", "NO", "FALSE")
  {
    FoldedSpellings();
    if key in s.status {
      assert SaidBy(s, key, s.status[key].text);
    } else if key in s.vars {
      assert SaidBy(s, key, s.vars[key].text);
    }
  }

  ghost predicate SaidBy(s: Snapshot, key: string, text: string) {
    if key in s.status then text == s.status[key].text else key in s.vars && text == s.vars[key].text
  }

  predicate OneOf(text: string, a: string, b: string, c: string, d: string) {
    EqualFold(text, a) || EqualFold(text, b) || EqualFold(text, c) || EqualFold(text, d)
  }

  lemma FoldedSpellings()
    ensures Fold("ON") == "on" && Fold("1") == "1" && Fold("YES") == "yes" && Fold("TRUE") == "true"
    ensures Fold("OFF") == "off" && Fold("0") == "0" && Fold("NO") == "no" && Fold("FALSE") == "false"
  {
  }

  // ----- the fields of a row

  /** A row cut at its bars. */
  function Fields(row: string): (r: seq<string>)
    ensures r != []
  {
    if row == "" then [""]
    else
      var rest := Fields(row[1..]);
      if row[0] == '|' then [""] + rest else [[row[0]] + rest[0]] + rest[1..]
  }

  lemma {:induction false} FieldsAt(x: string, rest: string)
    requires '|' !in x
    ensures Fields(x + BAR + rest) == [x] + Fields(rest) && Fields(x) == [x]
  {
    var row := x + BAR + rest;
    if x == "" {
      assert row[0] == '|' && row[1..] == rest;
    } else {
      assert row[0] == x[0] && row[1..] == x[1..] + BAR + rest;
      FieldsAt(x[1..], rest);
      assert x == [x[0]] + x[1..];
    }
  }

  /** The six fields in order: name, ordinal, type, nullability, key, default. */
  lemma RowFields(c: Column)
    requires BarFree(c) && '|' !in c.def
    ensures Fields(ColumnRow(c)) == [c.name, Decimal(c.ordinal), c.colType, c.nullable, c.key, c.def]
  {
    var r4 := c.nullable + BAR + (c.key + BAR + c.def);
    var r2 := Decimal(c.ordinal) + BAR + (c.colType + BAR + r4);
    LastFields(c.nullable, c.key, c.def);
    FieldsAt(c.colType, r4);
    assert '|' !in Decimal(c.ordinal);
    FieldsAt(Decimal(c.ordinal), c.colType + BAR + r4);
    FieldsAt(c.name, r2);
    assert ColumnRow(c) == c.name + BAR + r2;
  }

  lemma {:induction false} LastFields(x: string, y: string, z: string)
    requires '|' !in x && '|' !in y && '|' !in z
    ensures Fields(x + BAR + (y + BAR + z)) == [x, y, z]
  {
    FieldsAt(z, "");
    FieldsAt(y, z);
    FieldsAt(x, y + BAR + z);
  }
}
