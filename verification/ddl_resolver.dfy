/** `order_sql_commands` (database_tools.py lines 122-192): reorders a batch
    of `CREATE TABLE` statements so that every table comes after the tables
    its `REFERENCES` clauses name, or hands the batch back unchanged with a
    warning when some tables cannot be placed. */
module DdlResolver {
  import opened PyText
  import opened SqlScanner
  import opened DdlOrdering

  /** A recognised `CREATE TABLE` statement: the captured table name, the
      stripped statement text (without its `;`) and the referenced names in
      order of occurrence. */
  datatype Stmt = Stmt(name: string, text: string, refs: seq<string>)

  /** The marker line of the sorted answer (line 183). Long literals here
      are written as a few shorter pieces joined with `+`, which leaves the
      value unchanged and keeps the verifier's work on them small. */
  const SortedMarker: string := "# \U{2705} DDL Commands " + "sorted by FOREIGN " + "KEY dependency:"

  /** The safeguard (line 129): the upper-cased input mentions `CREATE TABLE`. */
  predicate HasCreateTable(sql: string) {
    Contains(Upper(sql), CreateTable)
  }

  /** The safeguard holds exactly when the keyword pair occurs somewhere in
      the input in some letter case. */
  lemma SafeguardMeans(sql: string)
    ensures HasCreateTable(sql) <==> exists p: nat :: KeywordAt(sql, p, CreateTable)
  {
    var u := Upper(sql);
    if HasCreateTable(sql) {
      var p :| 0 <= p <= |u| && OccursAt(u, CreateTable, p);
      assert forall k :: p <= k < p + |CreateTable| ==> u[k] == UpperChar(sql[k]);
      assert KeywordAt(sql, p, CreateTable);
    }
    if p: nat :| KeywordAt(sql, p, CreateTable) {
      assert u[p..p + |CreateTable|] == CreateTable;
      assert OccursAt(u, CreateTable, p);
    }
  }

  // ---------------------------------------------------------------------
  // Splitting the input into statements (line 133).

  /** A statement as the split leaves it: non-empty, stripped, no `;`. */
  predicate IsStatement(x: string) {
    x != [] && IsStripped(x) && ';' !in x
  }

  /** Every element non-empty and stripped. */
  predicate AllStripped(fs: seq<string>)
    decreases |fs|
  {
    fs == [] || (fs[0] != [] && IsStripped(fs[0]) && AllStripped(fs[1..]))
  }

  lemma {:induction false} AllStrippedMeans(fs: seq<string>)
    ensures AllStripped(fs) <==> forall x :: x in fs ==> x != [] && IsStripped(x)
    decreases |fs|
  {
    if fs != [] {
      AllStrippedMeans(fs[1..]);
      assert fs[0] in fs;
      assert forall x :: x in fs[1..] ==> x in fs;
      assert forall x :: x in fs ==> x == fs[0] || x in fs[1..] by {
        assert fs == [fs[0]] + fs[1..];
      }
    }
  }

  /** Some piece strips to the non-empty `x`. */
  ghost predicate StripsTo(pieces: seq<string>, x: string) {
    x != [] && exists j :: 0 <= j < |pieces| && Strip(pieces[j]) == x
  }

  /** The pieces after the first strip to the rest. */
  lemma StripsToCons(pieces: seq<string>)
    requires pieces != []
    ensures forall x :: StripsTo(pieces, x) <==>
              (Strip(pieces[0]) != [] && x == Strip(pieces[0])) || StripsTo(pieces[1..], x)
  {
    forall x ensures StripsTo(pieces, x) <==>
              (Strip(pieces[0]) != [] && x == Strip(pieces[0])) || StripsTo(pieces[1..], x) {
      if StripsTo(pieces, x) && x != Strip(pieces[0]) {
        var j :| 0 <= j < |pieces| && Strip(pieces[j]) == x;
        assert pieces[1..][j - 1] == pieces[j];
      }
      if StripsTo(pieces[1..], x) {
        var j :| 0 <= j < |pieces| - 1 && Strip(pieces[1..][j]) == x;
        assert pieces[j + 1] == pieces[1..][j];
      }
    }
  }

  /** `[s.strip() for s in pieces if s.strip()]`. */
  function KeepStripped(pieces: seq<string>): (r: seq<string>)
    ensures |r| <= |pieces|
    ensures AllStripped(r)
    ensures forall x :: x in r <==> StripsTo(pieces, x)
  {
    if pieces == [] then []
    else
      var s := Strip(pieces[0]);
      var rest := KeepStripped(pieces[1..]);
      StripsToCons(pieces);
      if s != [] then
        assert ([s] + rest)[1..] == rest;
        [s] + rest
      else rest
  }

  /** The comprehension works piece by piece, keeping the order of the
      pieces. */
  lemma {:induction false} KeepStrippedAppend(a: seq<string>, b: seq<string>)
    ensures KeepStripped(a + b) == KeepStripped(a) + KeepStripped(b)
    decreases |a|
  {
    if a == [] {
      assert a + b == b;
    } else {
      assert (a + b)[0] == a[0];
      assert (a + b)[1..] == a[1..] + b;
      KeepStrippedAppend(a[1..], b);
    }
  }

  /** One piece is kept, stripped, exactly when it is not blank. */
  lemma KeepStrippedOne(p: string)
    ensures KeepStripped([p]) == if Strip(p) == [] then [] else [Strip(p)]
  {
    assert [p][1..] == [];
  }

  /** Stripping adds no character: one absent from every piece is absent
      from every statement. */
  lemma {:induction false} KeepStrippedAvoids(pieces: seq<string>, c: char)
    requires forall j :: 0 <= j < |pieces| ==> c !in pieces[j]
    ensures forall x :: x in KeepStripped(pieces) ==> c !in x
    decreases |pieces|
  {
    if pieces != [] {
      assert c !in pieces[0];
      KeepStrippedAvoids(pieces[1..], c);
    }
  }

  /** The non-empty, stripped pieces of the input between semicolons. */
  function Statements(sql: string): (r: seq<string>)
    ensures forall x :: x in r ==> IsStatement(x)
  {
    var r := KeepStripped(Split(sql, ';'));
    KeepStrippedAvoids(Split(sql, ';'), ';');
    AllStrippedMeans(r);
    r
  }

  lemma {:induction false} KeepStrippedNoop(fs: seq<string>)
    requires AllStripped(fs)
    ensures KeepStripped(fs) == fs
    decreases |fs|
  {
    if fs != [] {
      StripNoop(fs[0]);
      KeepStrippedNoop(fs[1..]);
      assert fs == [fs[0]] + fs[1..];
    }
  }

  /** Splitting gives back the statements that were joined with `;`. */
  lemma StatementsOfJoin(fs: seq<string>)
    requires forall x :: x in fs ==> IsStatement(x)
    ensures Statements(Join(fs, [';'])) == fs
  {
    AllStrippedMeans(fs);
    if fs == [] {
      assert Split([], ';') == [[]];
      StripNoop([]);
    } else {
      assert forall i :: 0 <= i < |fs| ==> ';' !in fs[i] by {
        forall i | 0 <= i < |fs| ensures ';' !in fs[i] {
          assert IsStatement(fs[i]);
        }
      }
      SplitUnique(Join(fs, [';']), ';', fs);
      KeepStrippedNoop(fs);
    }
  }

  // ---------------------------------------------------------------------
  // Recognising the tables (lines 138-150).

  /** The two regular expressions applied to one statement: `None` when the
      header does not match, so the statement is skipped. */
  function Parse(statement: string): (r: Option<Stmt>)
    ensures r.Some? ==> r.value.text == statement && IsIdentifier(r.value.name)
    ensures r.Some? ==> forall k :: 0 <= k < |r.value.refs| ==> IsIdentifier(r.value.refs[k])
  {
    match FindHeader(statement)
    case None => None
    case Some(name) =>
      assert exists p :: 0 <= p <= |statement| && HeaderAt(statement, p) == Some(name);
      Some(Stmt(name, statement, FindAllRefs(statement, 0)))
  }

  /** What the two regex searches of lines 139 and 147 make of one
      statement. */
  lemma ParseSteps(statement: string)
    ensures FindHeader(statement).None? ==> Parse(statement) == None
    ensures FindHeader(statement).Some? ==>
              Parse(statement) == Some(Stmt(FindHeader(statement).value, statement, FindAllRefs(statement, 0)))
  {
  }

  /** The header pattern fits at `p` in some way. */
  ghost predicate HeaderFitsAt(s: string, p: nat) {
    exists a: nat, b: nat, c: nat, d: nat, e: nat :: HeaderShape(s, p, a, b, c, d, e)
  }

  /** A statement is recognised exactly when the header pattern fits
      somewhere in it; the name is then what the leftmost fit captures, and
      the references are what `findall` returns. */
  lemma ParseShape(s: string)
    ensures Parse(s).None? <==> forall p: nat :: !HeaderFitsAt(s, p)
    ensures Parse(s).Some? ==>
              exists p: nat, a: nat, b: nat, c: nat, d: nat, e: nat ::
                HeaderShape(s, p, a, b, c, d, e) && Parse(s).value.name == s[b..c]
                && forall q: nat :: q < p ==> !HeaderFitsAt(s, q)
    ensures Parse(s).Some? ==> Parse(s).value.text == s && Parse(s).value.refs == FindAllRefs(s, 0)
  {
    ParseSteps(s);
    if FindHeader(s).None? {
      NoHeaderFits(s);
      assert Parse(s) == None;
    } else {
      var p, a, b, c, d, e := LeftmostFit(s);
      var r := Parse(s);
      assert r == Some(Stmt(s[b..c], s, FindAllRefs(s, 0)));
      assert HeaderFitsAt(s, p);
      assert HeaderShape(s, p, a, b, c, d, e) && r.value.name == s[b..c];
    }
  }

  lemma NoHeaderFits(s: string)
    requires FindHeader(s).None?
    ensures forall p: nat :: !HeaderFitsAt(s, p)
  {
    forall p: nat ensures !HeaderFitsAt(s, p) {
      if p <= |s| {
        HeaderAtIsShape(s, p);
      }
    }
  }

  lemma LeftmostFit(s: string) returns (p: nat, a: nat, b: nat, c: nat, d: nat, e: nat)
    requires FindHeader(s).Some?
    ensures HeaderShape(s, p, a, b, c, d, e) && FindHeader(s).value == s[b..c]
    ensures forall q: nat :: q < p ==> !HeaderFitsAt(s, q)
  {
    var n := FindHeader(s).value;
    p :| p <= |s| && HeaderAt(s, p) == Some(n) && forall q :: 0 <= q < p ==> HeaderAt(s, q).None?;
    a, b, c, d, e := HeaderWitness(s, p);
    forall q: nat | q < p ensures !HeaderFitsAt(s, q) {
      HeaderAtIsShape(s, q);
    }
  }

  /** Every statement parsed, in order. */
  function Recognise(statements: seq<string>): (parsed: seq<Option<Stmt>>)
    ensures |parsed| == |statements|
    ensures forall j :: 0 <= j < |parsed| ==> parsed[j].Some? ==> parsed[j].value.text == statements[j]
  {
    seq(|statements|, j requires 0 <= j < |statements| => Parse(statements[j]))
  }

  /** The recognised statements by name, in statement order: a later
      statement for the same name replaces an earlier one. */
  function Collect(parsed: seq<Option<Stmt>>): (cat: map<string, Stmt>)
    ensures forall n :: n in cat ==> cat[n].name == n && Some(cat[n]) in parsed
    decreases |parsed|
  {
    if parsed == [] then map[]
    else
      var init := parsed[..|parsed| - 1];
      var cat := Collect(init);
      assert forall n :: n in cat ==> Some(cat[n]) in parsed by {
        forall n | n in cat ensures Some(cat[n]) in parsed {
          var j :| 0 <= j < |init| && init[j] == Some(cat[n]);
          assert parsed[j] == init[j];
        }
      }
      match parsed[|parsed| - 1]
      case None => cat
      case Some(st) => cat[st.name := st]
  }

  /** The tables recognised in `statements`: each name with the last
      statement whose header captures it. */
  function Catalog(statements: seq<string>): (cat: map<string, Stmt>)
    ensures forall n :: n in cat ==> cat[n].name == n && cat[n].text in statements
  {
    var parsed := Recognise(statements);
    var cat := Collect(parsed);
    CollectedTexts(statements, parsed, cat);
    cat
  }

  lemma CollectedTexts(statements: seq<string>, parsed: seq<Option<Stmt>>, cat: map<string, Stmt>)
    requires |parsed| == |statements|
    requires forall j :: 0 <= j < |parsed| ==> parsed[j].Some? ==> parsed[j].value.text == statements[j]
    requires forall n :: n in cat ==> Some(cat[n]) in parsed
    ensures forall n :: n in cat ==> cat[n].text in statements
  {
    forall n | n in cat ensures cat[n].text in statements {
      var j :| 0 <= j < |parsed| && parsed[j] == Some(cat[n]);
      assert statements[j] == cat[n].text;
    }
  }

  /** Statement `j` was recognised with the name `n`. */
  predicate Names(parsed: seq<Option<Stmt>>, j: nat, n: string)
    requires j < |parsed|
  {
    parsed[j].Some? && parsed[j].value.name == n
  }

  /** A name is recognised exactly when some statement's header captures
      it. */
  lemma {:induction false} CatalogKeys(parsed: seq<Option<Stmt>>, n: string)
    ensures n in Collect(parsed) <==> exists j :: 0 <= j < |parsed| && Names(parsed, j, n)
    decreases |parsed|
  {
    if parsed != [] {
      var init := parsed[..|parsed| - 1];
      var i := |parsed| - 1;
      CatalogKeys(init, n);
      assert forall j :: 0 <= j < |init| ==> (Names(init, j, n) <==> Names(parsed, j, n)) by {
        forall j | 0 <= j < |init| ensures Names(init, j, n) <==> Names(parsed, j, n) {
          assert init[j] == parsed[j];
        }
      }
      assert n in Collect(parsed) <==> n in Collect(init) || Names(parsed, i, n);
    }
  }

  /** The entry of a recognised name comes from the LAST statement whose
      header captures it. */
  lemma {:induction false} CatalogLastWins(parsed: seq<Option<Stmt>>, n: string, j: nat)
    requires j < |parsed| && Names(parsed, j, n)
    requires forall j' :: j < j' < |parsed| ==> !Names(parsed, j', n)
    ensures n in Collect(parsed) && Some(Collect(parsed)[n]) == parsed[j]
    decreases |parsed|
  {
    var init := parsed[..|parsed| - 1];
    var i := |parsed| - 1;
    if j < i {
      assert !Names(parsed, i, n);
      assert Names(init, j, n) by {
        assert init[j] == parsed[j];
      }
      forall j' | j < j' < |init| ensures !Names(init, j', n) {
        assert init[j'] == parsed[j'];
        assert !Names(parsed, j', n);
      }
      CatalogLastWins(init, n, j);
    }
  }

  /** Only statements with a recognised header reach the catalog, each
      filed under the name its header captures, with the references found
      in it. */
  lemma CatalogRecognised(statements: seq<string>, n: string)
    requires n in Catalog(statements)
    ensures FindHeader(Catalog(statements)[n].text) == Some(n)
    ensures Catalog(statements)[n].refs == FindAllRefs(Catalog(statements)[n].text, 0)
  {
    var parsed := Recognise(statements);
    var st := Collect(parsed)[n];
    var j :| 0 <= j < |parsed| && parsed[j] == Some(st);
    ParseSteps(statements[j]);
  }

  /** `dependencies`: each recognised name with its reference list. */
  function Dependencies(cat: map<string, Stmt>): (m: map<string, seq<string>>)
    ensures m.Keys == cat.Keys
  {
    map n | n in cat :: cat[n].refs
  }

  /** `table_map` and `dependencies` hold, for each recognised name, the
      statement with its `;` and the reference list. */
  ghost predicate Agrees(tableMap: map<string, string>, dependencies: map<string, seq<string>>, cat: map<string, Stmt>) {
    tableMap.Keys == cat.Keys && dependencies.Keys == cat.Keys
    && forall n :: n in cat ==> tableMap[n] == cat[n].text + ";" && dependencies[n] == cat[n].refs
  }

  /** Recording one more recognised statement keeps the two maps in step
      with the catalog. */
  lemma AgreesAdd(tableMap: map<string, string>, dependencies: map<string, seq<string>>,
                  cat: map<string, Stmt>, st: Stmt)
    requires Agrees(tableMap, dependencies, cat)
    ensures Agrees(tableMap[st.name := st.text + ";"], dependencies[st.name := st.refs], cat[st.name := st])
  {
  }

  /** One more statement extends the catalog by its recognised table, if
      any. */
  lemma CollectSnoc(parsed: seq<Option<Stmt>>, k: nat)
    requires k < |parsed|
    ensures parsed[k].None? ==> Collect(parsed[..k + 1]) == Collect(parsed[..k])
    ensures parsed[k].Some? ==> Collect(parsed[..k + 1]) == Collect(parsed[..k])[parsed[k].value.name := parsed[k].value]
  {
    assert parsed[..k + 1][..k] == parsed[..k];
  }

  /** Lines 149-150: appends each captured reference to the table's list,
      in the order found. */
  method AppendReferences(dependencies: map<string, seq<string>>, tableName: string, fkMatches: seq<string>)
    returns (deps: map<string, seq<string>>)
    requires tableName in dependencies
    ensures deps == dependencies[tableName := dependencies[tableName] + fkMatches]
  {
    deps := dependencies;
    assert dependencies[tableName] + fkMatches[..0] == dependencies[tableName];
    for j := 0 to |fkMatches|
      invariant deps == dependencies[tableName := dependencies[tableName] + fkMatches[..j]]
    {
      assert dependencies[tableName] + fkMatches[..j + 1] == dependencies[tableName] + fkMatches[..j] + [fkMatches[j]];
      deps := deps[tableName := deps[tableName] + [fkMatches[j]]];
    }
    assert fkMatches[..|fkMatches|] == fkMatches;
  }

  /** One pass of the loop at lines 138-150 keeps the two maps in step
      with the catalog of the statements seen so far. */
  lemma ExtractStep(statements: seq<string>, k: nat,
                    tableMap: map<string, string>, dependencies: map<string, seq<string>>)
    requires k < |statements|
    requires Agrees(tableMap, dependencies, Collect(Recognise(statements)[..k]))
    ensures FindHeader(statements[k]).None? ==>
              Agrees(tableMap, dependencies, Collect(Recognise(statements)[..k + 1]))
    ensures FindHeader(statements[k]).Some? ==>
              var name := FindHeader(statements[k]).value;
              Agrees(tableMap[name := statements[k] + ";"], dependencies[name := FindAllRefs(statements[k], 0)],
                     Collect(Recognise(statements)[..k + 1]))
  {
    var parsed := Recognise(statements);
    CollectSnoc(parsed, k);
    assert parsed[k] == Parse(statements[k]);
    if FindHeader(statements[k]).Some? {
      var st := Stmt(FindHeader(statements[k]).value, statements[k], FindAllRefs(statements[k], 0));
      AgreesAdd(tableMap, dependencies, Collect(parsed[..k]), st);
    }
  }

  /** Appending to a freshly emptied list is the same as storing the
      appended items. */
  lemma FreshList(dependencies: map<string, seq<string>>, tableName: string, items: seq<string>)
    ensures dependencies[tableName := []][tableName := dependencies[tableName := []][tableName] + items]
            == dependencies[tableName := items]
  {
    assert [] + items == items;
  }

  /** Lines 138-150: fills `table_map` and `dependencies` statement by
      statement. */
  method ExtractTables(statements: seq<string>)
    returns (tableMap: map<string, string>, dependencies: map<string, seq<string>>)
    ensures Agrees(tableMap, dependencies, Catalog(statements))
  {
    tableMap, dependencies := map[], map[];
    for k := 0 to |statements|
      invariant Agrees(tableMap, dependencies, Collect(Recognise(statements)[..k]))
    {
      ExtractStep(statements, k, tableMap, dependencies);
      var statement := statements[k];
      var tableMatch := FindHeader(statement);
      if tableMatch.None? {
        continue;
      }
      var tableName := tableMatch.value;
      ghost var deps0 := dependencies;
      tableMap := tableMap[tableName := statement + ";"];
      dependencies := dependencies[tableName := []];
      var fkMatches := FindAllRefs(statement, 0);
      dependencies := AppendReferences(dependencies, tableName, fkMatches);
      FreshList(deps0, tableName, fkMatches);
    }
    assert Recognise(statements)[..|statements|] == Recognise(statements);
  }

  // ---------------------------------------------------------------------
  // The output (lines 175-192).

  /** `"\n".join(["<marker>\n"] + texts).replace(';', ';\n\n').strip()`. */
  function Render(texts: seq<string>): string {
    Strip(ReplaceChar(Join([SortedMarker + "\n"] + texts, "\n"), ';', ";\n\n"))
  }

  /** What the sorted output looks like: the marker, a blank line, then the
      statements, each closed by `;` and separated by two blank lines. */
  function Layout(bodies: seq<string>): string {
    if bodies == [] then SortedMarker
    else SortedMarker + "\n\n" + Join(Terminated(bodies), "\n\n\n")
  }

  /** Each statement followed by its `;`. */
  function Terminated(bodies: seq<string>): (r: seq<string>)
    ensures |r| == |bodies| && forall i :: 0 <= i < |r| ==> r[i] == bodies[i] + ";"
  {
    seq(|bodies|, i requires 0 <= i < |bodies| => bodies[i] + ";")
  }

  /** Bodies in `order`, looked up in the catalog. */
  function Bodies(cat: map<string, Stmt>, order: seq<string>): (r: seq<string>)
    requires forall t :: t in order ==> t in cat
    ensures |r| == |order| && forall i :: 0 <= i < |r| ==> r[i] == cat[order[i]].text
  {
    seq(|order|, i requires 0 <= i < |order| => cat[order[i]].text)
  }

  /** The joined parts with every `;` widened, before stripping. */
  function Unstripped(bodies: seq<string>): string {
    ReplaceChar(Join([SortedMarker + "\n"] + Terminated(bodies), "\n"), ';', ";\n\n")
  }

  /** Widening the `;` of one more part appended after a newline. */
  lemma ReplaceTail(j: string, b: string)
    requires ';' !in b
    ensures ReplaceChar(j + "\n" + (b + ";"), ';', ";\n\n") == ReplaceChar(j, ';', ";\n\n") + "\n" + b + ";\n\n"
  {
    var m := "\n" + b;
    assert j + "\n" + (b + ";") == j + (m + [';']);
    ReplaceCharSnoc(j, m, ';', ";\n\n");
  }

  /** One more statement adds a newline, its text and `;` with two
      newlines. */
  lemma UnstrippedSnoc(bodies: seq<string>)
    requires bodies != [] && ';' !in bodies[|bodies| - 1]
    ensures Unstripped(bodies) == Unstripped(bodies[..|bodies| - 1]) + "\n" + bodies[|bodies| - 1] + ";\n\n"
  {
    var marker := SortedMarker + "\n";
    var init := bodies[..|bodies| - 1];
    var b := bodies[|bodies| - 1];
    assert [marker] + Terminated(bodies) == ([marker] + Terminated(init)) + [b + ";"];
    JoinSnoc([marker] + Terminated(init), b + ";", "\n");
    ReplaceTail(Join([marker] + Terminated(init), "\n"), b);
  }

  /** Appending one statement to a non-empty layout. */
  lemma LayoutSnoc(bodies: seq<string>)
    requires |bodies| >= 2
    ensures Layout(bodies) == Layout(bodies[..|bodies| - 1]) + "\n\n\n" + (bodies[|bodies| - 1] + ";")
  {
    var init := bodies[..|bodies| - 1];
    var b := bodies[|bodies| - 1];
    assert Terminated(bodies) == Terminated(init) + [b + ";"];
    JoinSnoc(Terminated(init), b + ";", "\n\n\n");
  }

  /** The marker holds no `;` and starts and ends with a non-space. */
  lemma MarkerFacts()
    ensures ';' !in SortedMarker + "\n"
    ensures SortedMarker[0] == '#' && SortedMarker[|SortedMarker| - 1] == ':'
  {
  }

  lemma Regroup(x: string, s1: string, s2: string, s12: string, b: string)
    requires s1 + s2 == s12
    ensures x + s1 + s2 + b + ";\n\n" == x + s12 + (b + ";") + "\n\n"
  {
  }

  /** The text before stripping: the marker, a newline, and for each
      statement a newline, the statement and `;` followed by two newlines. */
  lemma {:induction false} RenderUnstripped(bodies: seq<string>)
    requires forall i :: 0 <= i < |bodies| ==> ';' !in bodies[i]
    ensures bodies == [] ==> Unstripped(bodies) == SortedMarker + "\n"
    ensures bodies != [] ==> Unstripped(bodies) == Layout(bodies) + "\n\n"
    decreases |bodies|
  {
    if bodies == [] {
      assert [SortedMarker + "\n"] + Terminated(bodies) == [SortedMarker + "\n"];
      MarkerFacts();
      ReplaceCharAbsent(SortedMarker + "\n", ';', ";\n\n");
    } else {
      var init := bodies[..|bodies| - 1];
      var b := bodies[|bodies| - 1];
      RenderUnstripped(init);
      UnstrippedSnoc(bodies);
      if init == [] {
        LayoutSingle(b);
        assert bodies == [b];
        Regroup(SortedMarker, "\n", "\n", "\n\n", b);
      } else {
        LayoutSnoc(bodies);
        Regroup(Layout(init), "\n\n", "\n", "\n\n\n", b);
      }
    }
  }

  lemma LayoutSingle(b: string)
    ensures Layout([b]) == SortedMarker + "\n\n" + (b + ";")
  {
    assert Terminated([b]) == [b + ";"];
  }

  /** The sorted output is exactly `Layout` of the statements in order. */
  lemma RenderIsLayout(bodies: seq<string>)
    requires forall i :: 0 <= i < |bodies| ==> ';' !in bodies[i]
    ensures Render(Terminated(bodies)) == Layout(bodies)
  {
    var pad := if bodies == [] then "\n" else "\n\n";
    assert Unstripped(bodies) == Layout(bodies) + pad by {
      RenderUnstripped(bodies);
    }
    LayoutStripped(bodies);
    StripPadded(Layout(bodies), pad);
    assert Render(Terminated(bodies)) == Strip(Unstripped(bodies));
  }

  /** The layout starts with the marker's `#` and ends with its `:` or
      with the last statement's `;`. */
  lemma LayoutStripped(bodies: seq<string>)
    ensures Layout(bodies) != [] && IsStripped(Layout(bodies))
  {
    MarkerFacts();
    var l := Layout(bodies);
    assert l[0] == SortedMarker[0];
    if bodies != [] {
      var t := Terminated(bodies);
      if |t| == 1 {
        assert Join(t, "\n\n\n") == bodies[0] + ";";
      } else {
        assert t == t[..|t| - 1] + [t[|t| - 1]];
        JoinSnoc(t[..|t| - 1], t[|t| - 1], "\n\n\n");
      }
      assert l[|l| - 1] == ';';
    }
  }

  /** The warning up to the list of names (line 180), split into pieces as
      `SortedMarker` is. */
  const WarningHead: string :=
    "# \U{1F6A8} WARNING: " + "Not all tables " + "could be topologically " + "sorted (possible " + "circular dependencies: "

  /** The warning (line 180) that precedes the untouched input. */
  function WarningLine(names: seq<string>): string {
    WarningHead + Join(names, ", ") + "). Using " + "original order.\n"
  }

  /** The warning names every table it is given. */
  lemma WarningListsNames(names: seq<string>)
    ensures forall n :: n in names ==> Contains(WarningLine(names), n)
  {
    var tail := "). Using " + "original order.\n";
    var listed := Join(names, ", ");
    assert WarningLine(names) == WarningHead + listed + tail;
    forall n | n in names ensures Contains(WarningLine(names), n) {
      var k :| 0 <= k < |names| && names[k] == n;
      JoinContains(names, ", ", k);
      var i :| 0 <= i <= |listed| && OccursAt(listed, n, i);
      OccursWithin(WarningHead, listed, tail, n, i);
    }
  }

  /** The two answers after a sort cannot be confused: the warning starts
      with the siren where the sorted text has the check mark. */
  lemma WarningNotSorted(names: seq<string>, sql: string, bodies: seq<string>)
    ensures WarningLine(names) + sql != Layout(bodies)
  {
    var w := WarningLine(names) + sql;
    var l := Layout(bodies);
    assert w[2] == WarningHead[2] == '\U{1F6A8}';
    assert l[2] == SortedMarker[2] == '\U{2705}';
  }

  /** `names` lists the elements of `s`, each once, in some order. */
  ghost predicate Enumerates(names: seq<string>, s: set<string>) {
    Distinct(names) && forall x :: x in names <==> x in s
  }

  /** Iterating a Python `set`: its elements in an order of the set's
      choosing. */
  method ListSet(s: set<string>) returns (names: seq<string>)
    ensures Enumerates(names, s)
  {
    names := [];
    var rest := s;
    while rest != {}
      invariant rest <= s
      invariant Distinct(names)
      invariant forall x :: x in names <==> x in s && x !in rest
      decreases rest
    {
      var x :| x in rest;
      names := names + [x];
      rest := rest - {x};
    }
  }

  /** What `order_sql_commands` answers for `sql` when the sort emitted
      `order`: the warning naming the tables left out followed by the input,
      or the statements in `order` laid out. */
  ghost predicate Outcome(sql: string, cat: map<string, Stmt>, order: seq<string>, out: string)
    requires forall t :: t in order ==> t in cat
  {
    if exists t :: t in cat && t !in order then
      exists names :: Enumerates(names, cat.Keys - set t | t in order) && out == WarningLine(names) + sql
    else
      out == Layout(Bodies(cat, order))
  }

  /** A correct answer: the input itself when it does not mention
      `CREATE TABLE`; otherwise the outcome for some Kahn order of the
      recognised tables. Every run of the sort produces a Kahn order, but
      not every Kahn order is one a run with a first-in, first-out queue
      produces. */
  ghost predicate IsResolution(sql: string, out: string) {
    if !HasCreateTable(sql) then out == sql
    else
      var cat := Catalog(Statements(sql));
      exists order :: IsKahnOrder(Dependencies(cat), order) && Outcome(sql, cat, order, out)
  }

  /** The source's count test (line 177) and its emptiness test (line 179)
      agree: when no table is emitted twice and only recognised tables are
      emitted, some table is left out exactly when fewer tables were emitted
      than recognised. */
  lemma CountTestAgrees(tables: set<string>, order: seq<string>)
    requires Distinct(order) && forall x :: x in order ==> x in tables
    ensures |order| != |tables| <==> exists t :: t in tables && t !in order
  {
    if t :| t in tables && t !in order {
      forall x | x in order ensures x in tables - {t} {
      }
      DistinctSubsetCard(order, tables - {t});
    } else {
      DistinctCard(order);
      assert (set x | x in order) == tables;
    }
  }

  lemma {:induction false} DistinctCard(s: seq<string>)
    requires Distinct(s)
    ensures |set t | t in s| == |s|
    decreases |s|
  {
    if s != [] {
      var init := s[..|s| - 1];
      var last := s[|s| - 1];
      assert Distinct(init);
      DistinctCard(init);
      assert last !in init;
      assert (set t | t in s) == (set t | t in init) + {last};
    }
  }

  /** The extracted `dependencies` is the catalog's. */
  lemma AgreesDependencies(tableMap: map<string, string>, dependencies: map<string, seq<string>>, cat: map<string, Stmt>)
    requires Agrees(tableMap, dependencies, cat)
    ensures dependencies == Dependencies(cat)
  {
  }

  /** The catalog's statements hold no `;`, as they were cut at them. */
  lemma CatalogFree(sql: string)
    ensures forall n :: n in Catalog(Statements(sql)) ==> ';' !in Catalog(Statements(sql))[n].text
  {
    var statements := Statements(sql);
    var cat := Catalog(statements);
    forall n | n in cat ensures ';' !in cat[n].text {
      assert IsStatement(cat[n].text);
    }
  }

  lemma BodiesFree(cat: map<string, Stmt>, order: seq<string>)
    requires forall n :: n in cat ==> ';' !in cat[n].text
    requires forall t :: t in order ==> t in cat
    ensures forall i :: 0 <= i < |order| ==> ';' !in Bodies(cat, order)[i]
  {
    forall i | 0 <= i < |order| ensures ';' !in Bodies(cat, order)[i] {
      assert order[i] in order;
    }
  }

  /** The warning branch (lines 177-180) is an outcome of the sort. */
  lemma WarningOutcome(sql: string, cat: map<string, Stmt>, order: seq<string>, names: seq<string>, missing: string)
    requires forall t :: t in order ==> t in cat
    requires missing in cat && missing !in order
    requires Enumerates(names, cat.Keys - set t | t in order)
    ensures Outcome(sql, cat, order, WarningLine(names) + sql)
  {
  }

  /** The sorted branch (lines 182-192) is an outcome of the sort. */
  lemma SortedOutcome(sql: string, cat: map<string, Stmt>, order: seq<string>, out: string)
    requires forall t :: t in order ==> t in cat
    requires forall t :: t in cat ==> t in order
    requires out == Layout(Bodies(cat, order))
    ensures Outcome(sql, cat, order, out)
  {
  }

  /** An outcome of a Kahn order over the recognised tables is a
      resolution. */
  lemma Resolved(sql: string, order: seq<string>, out: string)
    requires HasCreateTable(sql)
    requires IsKahnOrder(Dependencies(Catalog(Statements(sql))), order)
    requires forall t :: t in order ==> t in Catalog(Statements(sql))
    requires Outcome(sql, Catalog(Statements(sql)), order, out)
    ensures IsResolution(sql, out)
  {
  }

  /** Lines 182-185: the marker line, then each table's statement in
      `order`. */
  method OutputParts(tableMap: map<string, string>, orderedTables: seq<string>) returns (outputParts: seq<string>)
    requires forall t :: t in orderedTables ==> t in tableMap
    ensures |outputParts| == |orderedTables| + 1 && outputParts[0] == SortedMarker + "\n"
    ensures forall i :: 0 <= i < |orderedTables| ==> outputParts[i + 1] == tableMap[orderedTables[i]]
  {
    outputParts := [SortedMarker + "\n"];
    for i := 0 to |orderedTables|
      invariant |outputParts| == i + 1 && outputParts[0] == SortedMarker + "\n"
      invariant forall k :: 0 <= k < i ==> outputParts[k + 1] == tableMap[orderedTables[k]]
    {
      outputParts := outputParts + [tableMap[orderedTables[i]]];
    }
  }

  /** With `table_map` taken from the catalog, the parts are the marker line
      and the catalog's statements, each closed by `;`. */
  lemma PartsTerminated(tableMap: map<string, string>, dependencies: map<string, seq<string>>,
                        cat: map<string, Stmt>, order: seq<string>, parts: seq<string>)
    requires Agrees(tableMap, dependencies, cat)
    requires forall t :: t in order ==> t in cat
    requires |parts| == |order| + 1 && parts[0] == SortedMarker + "\n"
    requires forall i :: 0 <= i < |order| ==> parts[i + 1] == tableMap[order[i]]
    ensures parts == [SortedMarker + "\n"] + Terminated(Bodies(cat, order))
  {
    var t := Terminated(Bodies(cat, order));
    forall i | 0 <= i < |order| ensures parts[i + 1] == t[i] {
      assert order[i] in order;
    }
  }

  /** The warning branch (lines 177-180) answers a resolution. */
  lemma WarningResolved(sql: string, tableMap: map<string, string>, dependencies: map<string, seq<string>>,
                        order: seq<string>, names: seq<string>)
    requires HasCreateTable(sql)
    requires Agrees(tableMap, dependencies, Catalog(Statements(sql)))
    requires IsKahnOrder(dependencies, order)
    requires tableMap.Keys - (set t | t in order) != {}
    requires Enumerates(names, tableMap.Keys - set t | t in order)
    ensures IsResolution(sql, WarningLine(names) + sql)
  {
    var cat := Catalog(Statements(sql));
    AgreesDependencies(tableMap, dependencies, cat);
    KahnOrderMembers(dependencies, order);
    var t :| t in tableMap.Keys - (set t | t in order);
    WarningOutcome(sql, cat, order, names, t);
    Resolved(sql, order, WarningLine(names) + sql);
  }

  /** The sorted branch (lines 182-192) answers a resolution. */
  lemma SortedResolved(sql: string, tableMap: map<string, string>, dependencies: map<string, seq<string>>,
                       order: seq<string>, parts: seq<string>)
    requires HasCreateTable(sql)
    requires Agrees(tableMap, dependencies, Catalog(Statements(sql)))
    requires IsKahnOrder(dependencies, order)
    requires |order| == |tableMap| || tableMap.Keys - (set t | t in order) == {}
    requires |parts| == |order| + 1 && parts[0] == SortedMarker + "\n"
    requires forall i :: 0 <= i < |order| ==> parts[i + 1] == tableMap[order[i]]
    ensures IsResolution(sql, Strip(ReplaceChar(Join(parts, "\n"), ';', ";\n\n")))
  {
    var cat := Catalog(Statements(sql));
    AgreesDependencies(tableMap, dependencies, cat);
    KahnOrderMembers(dependencies, order);
    AllEmitted(tableMap.Keys, order);
    var out := Strip(ReplaceChar(Join(parts, "\n"), ';', ";\n\n"));
    assert out == Layout(Bodies(cat, order)) by {
      CatalogFree(sql);
      SortedLayout(tableMap, dependencies, cat, order, parts);
    }
    SortedOutcome(sql, cat, order, out);
    Resolved(sql, order, out);
  }

  /** Either form of the test of line 177 failing means every table was
      emitted. */
  lemma AllEmitted(tables: set<string>, order: seq<string>)
    requires Distinct(order) && forall x :: x in order ==> x in tables
    requires |order| == |tables| || tables - (set t | t in order) == {}
    ensures forall t :: t in tables ==> t in order
  {
    CountTestAgrees(tables, order);
    if |order| != |tables| {
      forall t | t in tables ensures t in order {
        assert t !in tables - (set t | t in order);
      }
    }
  }

  /** The parts of the sorted branch render as the layout of the
      catalog's statements in `order`. */
  lemma SortedLayout(tableMap: map<string, string>, dependencies: map<string, seq<string>>,
                     cat: map<string, Stmt>, order: seq<string>, parts: seq<string>)
    requires Agrees(tableMap, dependencies, cat)
    requires forall n :: n in cat ==> ';' !in cat[n].text
    requires forall t :: t in order ==> t in cat
    requires |parts| == |order| + 1 && parts[0] == SortedMarker + "\n"
    requires forall i :: 0 <= i < |order| ==> parts[i + 1] == tableMap[order[i]]
    ensures Strip(ReplaceChar(Join(parts, "\n"), ';', ";\n\n")) == Layout(Bodies(cat, order))
  {
    var bodies := Bodies(cat, order);
    PartsTerminated(tableMap, dependencies, cat, order, parts);
    BodiesFree(cat, order);
    RenderIsLayout(bodies);
    assert Strip(ReplaceChar(Join(parts, "\n"), ';', ";\n\n")) == Render(Terminated(bodies));
  }

  /** `order_sql_commands` (lines 122-192). */
  method OrderSqlCommands(sql: string) returns (out: string)
    ensures !HasCreateTable(sql) ==> out == sql
    ensures IsResolution(sql, out)
  {
    if !HasCreateTable(sql) {
      return sql;
    }
    var statements := Statements(sql);
    var tableMap, dependencies := ExtractTables(statements);
    var orderedTables := TopoSort(dependencies);
    if |orderedTables| != |tableMap| {
      var missingTables := tableMap.Keys - set t | t in orderedTables;
      if missingTables != {} {
        var names := ListSet(missingTables);
        WarningResolved(sql, tableMap, dependencies, orderedTables, names);
        return WarningLine(names) + sql;
      }
    }
    var outputParts := OutputParts(tableMap, orderedTables);
    var finalOutput := Join(outputParts, "\n");
    finalOutput := Strip(ReplaceChar(finalOutput, ';', ";\n\n"));
    SortedResolved(sql, tableMap, dependencies, orderedTables, outputParts);
    return finalOutput;
  }

  /** With no recognised table, the sort emits nothing and the answer is
      the marker line alone. */
  lemma EmptyOutcome(sql: string, order: seq<string>, out: string)
    requires IsKahnOrder(Dependencies(map[]), order)
    requires Outcome(sql, map[], order, out)
    ensures out == SortedMarker
  {
    assert Bodies(map[], order) == [];
  }

  /** If no statement has a recognised header, the sorted answer is the
      marker line alone. */
  lemma NoTablesGivesMarker(sql: string, out: string)
    requires HasCreateTable(sql) && Catalog(Statements(sql)) == map[]
    requires IsResolution(sql, out)
    ensures out == SortedMarker
  {
    var order :| IsKahnOrder(Dependencies(map[]), order) && Outcome(sql, map[], order, out);
    EmptyOutcome(sql, order, out);
  }

  /** Whether the warning is given does not depend on the order in which
      the sort met equally ready tables. */
  lemma WarningIndependent(cat: map<string, Stmt>, o1: seq<string>, o2: seq<string>)
    requires IsKahnOrder(Dependencies(cat), o1) && IsKahnOrder(Dependencies(cat), o2)
    ensures (exists t :: t in cat && t !in o1) <==> (exists t :: t in cat && t !in o2)
  {
    KahnOrderSameTables(Dependencies(cat), o1, o2);
  }
}
