/** What `Logger.LogErrors` writes into the log directory: one JSON file per
    non-empty result queue and two CSV tables, each produced only when its
    gate holds. File contents other than the CSV lines are left abstract. */
module Report {
  import opened Wrappers
  import opened Text
  import opened Dicts
  import opened Aggregation

  // ---------------------------------------------------------------------------
  // The CSV tables

  const StringHeader := "Dll Name, Resource Name" + ", cs" + ", de" + ", es" + ", fr" + ", it" + ", ja"
    + ", ko" + ", pl" + ", pt-br" + ", ru" + ", tr" + ", zh-hans" + ", zh-hant"
  const DllHeader := "Dll Name" + ", cs" + ", de" + ", es" + ", fr" + ", it" + ", ja"
    + ", ko" + ", pl" + ", pt-br" + ", ru" + ", tr" + ", zh-hans" + ", zh-hant"

  /** A header line: the leading column names, then `, ` and each locale. */
  function HeaderLine(lead: string, locales: seq<string>): string
    decreases |locales|
  {
    if locales == [] then lead
    else HeaderLine(lead, locales[..|locales| - 1]) + ", " + locales[|locales| - 1]
  }

  lemma HeaderStep(lead: string, locales: seq<string>, k: nat, column: string)
    requires k < |locales| && column == ", " + locales[k]
    ensures HeaderLine(lead, locales[..k + 1]) == HeaderLine(lead, locales[..k]) + column
  {
    assert locales[..k + 1][..k] == locales[..k];
  }

  lemma HeaderOf(lead: string, locales: seq<string>, header: string)
    requires locales == LocaleStrings
    requires header == lead + ", cs" + ", de" + ", es" + ", fr" + ", it" + ", ja"
      + ", ko" + ", pl" + ", pt-br" + ", ru" + ", tr" + ", zh-hans" + ", zh-hant"
    ensures header == HeaderLine(lead, locales)
  {
    var front := lead + ", cs" + ", de" + ", es" + ", fr" + ", it" + ", ja";
    HeaderFront(lead, locales, front);
    HeaderStep(lead, locales, 6, ", ko");
    HeaderStep(lead, locales, 7, ", pl");
    HeaderStep(lead, locales, 8, ", pt-br");
    HeaderStep(lead, locales, 9, ", ru");
    HeaderStep(lead, locales, 10, ", tr");
    HeaderStep(lead, locales, 11, ", zh-hans");
    HeaderStep(lead, locales, 12, ", zh-hant");
    assert locales[..13] == locales;
  }

  lemma HeaderFront(lead: string, locales: seq<string>, front: string)
    requires locales == LocaleStrings
    requires front == lead + ", cs" + ", de" + ", es" + ", fr" + ", it" + ", ja"
    ensures front == HeaderLine(lead, locales[..6])
  {
    assert locales[..0] == [];
    HeaderStep(lead, locales, 0, ", cs");
    HeaderStep(lead, locales, 1, ", de");
    HeaderStep(lead, locales, 2, ", es");
    HeaderStep(lead, locales, 3, ", fr");
    HeaderStep(lead, locales, 4, ", it");
    HeaderStep(lead, locales, 5, ", ja");
  }

  /** Both headers name the known locales, in their order. */
  lemma HeadersNameLocales()
    ensures StringHeader == HeaderLine("Dll Name, Resource Name", LocaleStrings)
    ensures DllHeader == HeaderLine("Dll Name", LocaleStrings)
  {
    HeaderOf("Dll Name, Resource Name", LocaleStrings, StringHeader);
    HeaderOf("Dll Name", LocaleStrings, DllHeader);
  }

  /** Each locale with the space that follows the header's commas. */
  function Spaced(locales: seq<string>): (r: seq<string>)
    ensures |r| == |locales| && forall j :: 0 <= j < |locales| ==> r[j] == " " + locales[j]
  {
    if locales == [] then [] else [" " + locales[0]] + Spaced(locales[1..])
  }

  lemma {:induction false} JoinSnoc(parts: seq<string>, last: string, sep: char)
    requires |parts| >= 1
    ensures Join(parts + [last], sep) == Join(parts, sep) + [sep] + last
    decreases |parts|
  {
    if |parts| > 1 {
      assert (parts + [last])[1..] == parts[1..] + [last];
      JoinSnoc(parts[1..], last, sep);
    }
  }

  /** A header line is its leading fields and its spaced locales joined by commas. */
  lemma {:induction false} HeaderLineIsJoined(lead: string, fields: seq<string>, locales: seq<string>)
    requires |fields| >= 1 && Join(fields, ',') == lead
    ensures HeaderLine(lead, locales) == Join(fields + Spaced(locales), ',')
    decreases |locales|
  {
    if locales == [] {
      assert fields + Spaced(locales) == fields;
    } else {
      HeaderLineIsJoined(lead, fields, locales[..|locales| - 1]);
      HeaderJoinStep(lead, fields, locales);
    }
  }

  lemma HeaderJoinStep(lead: string, fields: seq<string>, locales: seq<string>)
    requires |fields| >= 1 && |locales| >= 1
    requires HeaderLine(lead, locales[..|locales| - 1])
          == Join(fields + Spaced(locales[..|locales| - 1]), ',')
    ensures HeaderLine(lead, locales) == Join(fields + Spaced(locales), ',')
  {
    var init, last := locales[..|locales| - 1], locales[|locales| - 1];
    var front := fields + Spaced(init);
    assert locales == init + [last];
    SpacedSnoc(init, last);
    assert fields + Spaced(locales) == front + [" " + last];
    JoinSnoc(front, " " + last, ',');
    Regroup(HeaderLine(lead, init), last);
  }

  lemma Regroup(a: string, last: string)
    ensures a + ", " + last == a + [','] + (" " + last)
  {
  }

  lemma SpacedSnoc(init: seq<string>, last: string)
    ensures Spaced(init + [last]) == Spaced(init) + [" " + last]
  {
  }

  /** Split on `,`, a header gives its leading fields and then one field per
      locale, in order. */
  lemma HeaderLineFields(lead: string, fields: seq<string>, locales: seq<string>)
    requires |fields| >= 1 && Join(fields, ',') == lead
    requires forall p :: p in fields ==> ',' !in p
    requires forall j :: 0 <= j < |locales| ==> ',' !in locales[j]
    ensures Split(HeaderLine(lead, locales), ',') == fields + Spaced(locales)
  {
    HeaderLineIsJoined(lead, fields, locales);
    var parts := fields + Spaced(locales);
    forall p | p in parts ensures ',' !in p {
      if p !in fields {
        var j :| 0 <= j < |locales| && Spaced(locales)[j] == p;
        assert p == [' '] + locales[j];
      }
    }
    SplitJoin(parts, ',');
  }

  lemma LocaleFields(locales: seq<string>)
    requires locales == LocaleStrings
    ensures forall j :: 0 <= j < |locales| ==> ',' !in locales[j]
  {
  }

  lemma LeadFields(lead: string, first: string, second: string)
    requires first == "Dll Name" && second == " Resource Name" && lead == first + "," + second
    ensures Join([first, second], ',') == lead
    ensures forall p :: p in [first, second] ==> ',' !in p
  {
  }

  /** The untranslated-string header has two leading fields and then one
      field per known locale; its rows have the same columns plus an empty
      field after their last comma. */
  lemma StringHeaderFields()
    ensures Split(StringHeader, ',') == ["Dll Name", " Resource Name"] + Spaced(LocaleStrings)
  {
    HeadersNameLocales();
    LocaleFields(LocaleStrings);
    LeadFields("Dll Name, Resource Name", "Dll Name", " Resource Name");
    HeaderLineFields("Dll Name, Resource Name", ["Dll Name", " Resource Name"], LocaleStrings);
  }

  /** One locale cell's text: `Error` or nothing. */
  function Mark(error: bool): string {
    if error then "Error" else ""
  }

  /** The cell texts for `locales`: `Error` exactly where membership in
      `list` equals `errorWhenIn`. */
  function Marks(locales: seq<string>, list: seq<string>, errorWhenIn: bool): (r: seq<string>)
    ensures |r| == |locales|
    ensures forall j :: 0 <= j < |locales| ==> r[j] == Mark((locales[j] in list) == errorWhenIn)
  {
    if locales == [] then [] else [Mark((locales[0] in list) == errorWhenIn)] + Marks(locales[1..], list, errorWhenIn)
  }

  /** The `foreach (var language in LocaleStrings)` loop: each cell followed
      by a comma. */
  function Cells(locales: seq<string>, list: seq<string>, errorWhenIn: bool): string {
    if locales == [] then ""
    else Mark((locales[0] in list) == errorWhenIn) + "," + Cells(locales[1..], list, errorWhenIn)
  }

  /** A row of the untranslated-string table: `Error` where the string is
      untranslated. */
  function StringRow(dll: string, resource: string, untranslated: seq<string>): string {
    dll + "," + resource + "," + Cells(LocaleStrings, untranslated, true)
  }

  /** A row of the dll table: `Error` where no translated dll was found. */
  function DllRow(dll: string, locales: seq<string>): string {
    dll + "," + Cells(LocaleStrings, locales, false)
  }

  /** Every cell ends in a comma: the cells are the marks joined by commas
      with one empty field after the last. */
  lemma {:induction false} CellsAreJoinedMarks(locales: seq<string>, list: seq<string>, errorWhenIn: bool)
    ensures Cells(locales, list, errorWhenIn) == Join(Marks(locales, list, errorWhenIn) + [""], ',')
  {
    var ms := Marks(locales, list, errorWhenIn);
    if locales != [] {
      CellsAreJoinedMarks(locales[1..], list, errorWhenIn);
      assert (ms + [""])[1..] == Marks(locales[1..], list, errorWhenIn) + [""];
    }
  }

  lemma MarksHaveNoComma(locales: seq<string>, list: seq<string>, errorWhenIn: bool)
    ensures forall p :: p in Marks(locales, list, errorWhenIn) ==> ',' !in p
  {
    assert ',' !in "Error";
  }

  /** A comma-free lead, then the cells: splitting on `,` gives back the
      lead's fields, one mark per locale and the empty field after the last
      comma. */
  lemma RowFields(lead: string, fields: seq<string>, locales: seq<string>, list: seq<string>, errorWhenIn: bool)
    requires |fields| >= 1 && Join(fields, ',') == lead
    requires forall p :: p in fields ==> ',' !in p
    ensures Split(lead + "," + Cells(locales, list, errorWhenIn), ',')
         == fields + Marks(locales, list, errorWhenIn) + [""]
  {
    var all := fields + Marks(locales, list, errorWhenIn) + [""];
    RowJoin(lead, fields, locales, list, errorWhenIn);
    MarksHaveNoComma(locales, list, errorWhenIn);
    FieldsHaveNoComma(fields, Marks(locales, list, errorWhenIn));
    SplitJoin(all, ',');
  }

  lemma RowJoin(lead: string, fields: seq<string>, locales: seq<string>, list: seq<string>, errorWhenIn: bool)
    requires |fields| >= 1 && Join(fields, ',') == lead
    ensures lead + "," + Cells(locales, list, errorWhenIn)
         == Join(fields + Marks(locales, list, errorWhenIn) + [""], ',')
  {
    var ms := Marks(locales, list, errorWhenIn);
    CellsAreJoinedMarks(locales, list, errorWhenIn);
    JoinedLead(lead, fields, ms + [""], Cells(locales, list, errorWhenIn));
    AppendAssoc(fields, ms, [""]);
  }

  lemma JoinedLead(lead: string, fields: seq<string>, cells: seq<string>, joined: string)
    requires |fields| >= 1 && Join(fields, ',') == lead
    requires |cells| >= 1 && Join(cells, ',') == joined
    ensures lead + "," + joined == Join(fields + cells, ',')
  {
    JoinAppend(fields, cells, ',');
  }

  lemma FieldsHaveNoComma(fields: seq<string>, ms: seq<string>)
    requires forall p :: p in fields ==> ',' !in p
    requires forall p :: p in ms ==> ',' !in p
    ensures forall p :: p in fields + ms + [""] ==> ',' !in p
  {
  }

  /** Splitting a row of the untranslated-string table on `,` gives back the
      dll, the resource, one cell per known locale that reads `Error` iff the
      string is untranslated there, and the empty field after the last comma. */
  lemma StringRowFields(dll: string, resource: string, untranslated: seq<string>)
    requires ',' !in dll && ',' !in resource
    ensures Split(StringRow(dll, resource, untranslated), ',')
         == [dll, resource] + Marks(LocaleStrings, untranslated, true) + [""]
  {
    JoinCons(dll, [resource], ',');
    RowFields(dll + "," + resource, [dll, resource], LocaleStrings, untranslated, true);
  }

  /** Splitting a row of the dll table on `,` gives back the dll, one cell
      per known locale that reads `Error` iff that locale is absent, and the
      empty field after the last comma. */
  lemma DllRowFields(dll: string, locales: seq<string>)
    requires ',' !in dll
    ensures Split(DllRow(dll, locales), ',') == [dll] + Marks(LocaleStrings, locales, false) + [""]
  {
    RowFields(dll, [dll], LocaleStrings, locales, false);
  }

  // ---------------------------------------------------------------------------
  // Row selection

  /** The (resource) pairs of one dll, in its dictionary order from `i` on. */
  function ResourcePairs(dll: string, resources: seq<string>, i: nat): (r: seq<(string, string)>)
    requires i <= |resources|
    ensures |r| == |resources| - i
    ensures forall k :: 0 <= k < |r| ==> r[k] == (dll, resources[i + k])
    decreases |resources| - i
  {
    if i == |resources| then [] else [(dll, resources[i])] + ResourcePairs(dll, resources, i + 1)
  }

  /** The nested `foreach` over dlls and their resources, from dll `i` on. */
  function Pairs(c: Deduped, i: nat): seq<(string, string)>
    requires DedupValid(c) && i <= |c.order|
    decreases |c.order| - i
  {
    if i == |c.order| then []
    else
      var dll := c.order[i];
      assert dll in c.entries;
      ResourcePairs(dll, c.entries[dll].order, 0) + Pairs(c, i + 1)
  }

  lemma {:induction false} PairsFrom(c: Deduped, i: nat, dll: string, resource: string)
    requires DedupValid(c) && i <= |c.order|
    ensures (dll, resource) in Pairs(c, i) <==>
      (exists j :: i <= j < |c.order| && c.order[j] == dll) && dll in c.entries && resource in c.entries[dll].entries
    decreases |c.order| - i
  {
    if i < |c.order| {
      PairsFrom(c, i + 1, dll, resource);
      var here := c.order[i];
      assert here in c.entries;
      var rp := ResourcePairs(here, c.entries[here].order, 0);
      assert (dll, resource) in rp <==> dll == here && resource in c.entries[here].order by {
        if (dll, resource) in rp {
          var k :| 0 <= k < |rp| && rp[k] == (dll, resource);
        }
        if dll == here && resource in c.entries[here].order {
          var k :| 0 <= k < |c.entries[here].order| && c.entries[here].order[k] == resource;
          assert rp[k] == (dll, resource);
        }
      }
    }
  }

  /** Every (dll, resource) pair of the map is listed. */
  lemma PairsComplete(c: Deduped, dll: string, resource: string)
    requires DedupValid(c)
    ensures (dll, resource) in Pairs(c, 0) <==> dll in c.entries && resource in c.entries[dll].entries
  {
    PairsFrom(c, 0, dll, resource);
    if dll in c.entries {
      var j :| 0 <= j < |c.order| && c.order[j] == dll;
    }
  }

  /** ... and none is listed twice; the pairs from dll `i` on belong to none
      of the dlls before it. */
  lemma {:induction false} PairsDistinct(c: Deduped, i: nat)
    requires DedupValid(c) && i <= |c.order|
    ensures forall m, n :: 0 <= m < n < |Pairs(c, i)| ==> Pairs(c, i)[m] != Pairs(c, i)[n]
    ensures forall n, k :: 0 <= n < |Pairs(c, i)| && 0 <= k < i ==> Pairs(c, i)[n].0 != c.order[k]
    decreases |c.order| - i
  {
    if i < |c.order| {
      PairsDistinct(c, i + 1);
      var here := c.order[i];
      assert here in c.entries;
      var resources := c.entries[here].order;
      var rp := ResourcePairs(here, resources, 0);
      var rest := Pairs(c, i + 1);
      assert Pairs(c, i) == rp + rest;
      forall m, n | 0 <= m < n < |rp| ensures rp[m] != rp[n] {
        assert resources[m] != resources[n];
      }
      DistinctAppend(rp, rest, here);
      forall n, k | 0 <= n < |rp + rest| && 0 <= k < i ensures (rp + rest)[n].0 != c.order[k] {
        if n < |rp| {
          assert c.order[k] != c.order[i];
        } else {
          assert (rp + rest)[n] == rest[n - |rp|];
        }
      }
    }
  }

  /** Two duplicate-free lists whose first components never meet join into one. */
  lemma DistinctAppend(a: seq<(string, string)>, b: seq<(string, string)>, here: string)
    requires forall m, n :: 0 <= m < n < |a| ==> a[m] != a[n]
    requires forall m, n :: 0 <= m < n < |b| ==> b[m] != b[n]
    requires forall k :: 0 <= k < |a| ==> a[k].0 == here
    requires forall k :: 0 <= k < |b| ==> b[k].0 != here
    ensures forall m, n :: 0 <= m < n < |a + b| ==> (a + b)[m] != (a + b)[n]
  {
    forall m, n | 0 <= m < n < |a + b| ensures (a + b)[m] != (a + b)[n] {
      if n < |a| {
      } else if m < |a| {
        assert (a + b)[n] == b[n - |a|];
      } else {
        assert (a + b)[m] == b[m - |a|] && (a + b)[n] == b[n - |a|];
      }
    }
  }

  /** The lines of the untranslated-string table, or `None` when it is not
      written because the map has no dll. */
  function StringTable(c: Deduped): (r: Option<seq<string>>)
    requires DedupValid(c)
    ensures r.Some? <==> c.entries != map[]
    ensures r.Some? ==> |r.value| == 1 + |Pairs(c, 0)| && r.value[0] == StringHeader
    ensures r.Some? ==> forall k :: 0 <= k < |Pairs(c, 0)| ==>
      r.value[k + 1] == StringRow(Pairs(c, 0)[k].0, Pairs(c, 0)[k].1, UntranslatedIn(c, Pairs(c, 0)[k].0, Pairs(c, 0)[k].1))
  {
    EmptyOrder(c);
    if c.order == [] then None
    else
      var ps := Pairs(c, 0);
      Some([StringHeader] + seq(|ps|, k requires 0 <= k < |ps| => StringRow(ps[k].0, ps[k].1, UntranslatedIn(c, ps[k].0, ps[k].1))))
  }

  /** The dlls, from `i` on, whose number of locales differs from the
      number of known locales. */
  function IncompleteDlls(c: LocalizedDlls, i: nat): (r: seq<string>)
    requires c.Valid() && i <= |c.order|
    ensures forall d :: d in r <==>
      (exists j :: i <= j < |c.order| && c.order[j] == d) && d in c.entries && |c.entries[d]| != |LocaleStrings|
    ensures forall k :: 0 <= k < |r| ==> r[k] in c.entries
    decreases |c.order| - i
  {
    if i == |c.order| then []
    else
      var d := c.order[i];
      assert d in c.entries;
      if |c.entries[d]| != |LocaleStrings| then [d] + IncompleteDlls(c, i + 1) else IncompleteDlls(c, i + 1)
  }

  /** The gate of the dll table: some dll has fewer locales than are known. */
  predicate HasShortDll(c: LocalizedDlls)
    requires c.Valid()
  {
    exists j :: 0 <= j < |c.order| && c.order[j] in c.entries && |c.entries[c.order[j]]| < |LocaleStrings|
  }

  /** The gate looks at the dlls in order, which are all the dlls. */
  lemma ShortDllGate(c: LocalizedDlls)
    requires c.Valid()
    ensures HasShortDll(c) <==> exists d :: d in c.entries && |c.entries[d]| < |LocaleStrings|
  {
    if exists d :: d in c.entries && |c.entries[d]| < |LocaleStrings| {
      var d :| d in c.entries && |c.entries[d]| < |LocaleStrings|;
      var j :| 0 <= j < |c.order| && c.order[j] == d;
    }
  }

  /** The lines of the dll table, or `None` when it is not written. */
  function DllTable(c: LocalizedDlls): (r: Option<seq<string>>)
    requires c.Valid()
    ensures r.Some? <==> exists d :: d in c.entries && |c.entries[d]| < |LocaleStrings|
    ensures r.Some? ==> |r.value| == 1 + |IncompleteDlls(c, 0)| && r.value[0] == DllHeader
    ensures r.Some? ==> forall k :: 0 <= k < |IncompleteDlls(c, 0)| ==>
      r.value[k + 1] == DllRow(IncompleteDlls(c, 0)[k], c.entries[IncompleteDlls(c, 0)[k]])
  {
    ShortDllGate(c);
    if !HasShortDll(c) then None
    else
      var ds := IncompleteDlls(c, 0);
      var rows := seq(|ds|, k requires 0 <= k < |ds| => DllRow(ds[k], c.entries[ds[k]]));
      assert forall k :: 0 <= k < |ds| ==> ([DllHeader] + rows)[k + 1] == rows[k];
      Some([DllHeader] + rows)
  }

  /** Line `k + 1` of a written dll table is the row of the `k`-th listed
      dll: its name, then per known locale a cell that reads `Error` exactly
      when that locale is absent for the dll, and the trailing empty field. */
  lemma DllTableLine(c: LocalizedDlls, k: nat, j: nat)
    requires c.Valid() && DllTable(c).Some?
    requires k < |IncompleteDlls(c, 0)| && ',' !in IncompleteDlls(c, 0)[k] && j < |LocaleStrings|
    ensures IncompleteDlls(c, 0)[k] in c.entries
    ensures |c.entries[IncompleteDlls(c, 0)[k]]| != |LocaleStrings|
    ensures |Split(DllTable(c).value[k + 1], ',')| == |LocaleStrings| + 2
    ensures Split(DllTable(c).value[k + 1], ',')[0] == IncompleteDlls(c, 0)[k]
    ensures Split(DllTable(c).value[k + 1], ',')[j + 1] == "Error" <==> LocaleStrings[j] !in c.entries[IncompleteDlls(c, 0)[k]]
  {
    var d := IncompleteDlls(c, 0)[k];
    assert d in IncompleteDlls(c, 0);
    DllRowCell(d, c.entries[d], j);
  }

  /** Cell `j` of a dll row, counted after the dll name, reads `Error`
      exactly when locale `j` is absent. */
  lemma DllRowCell(dll: string, locales: seq<string>, j: nat)
    requires ',' !in dll && j < |LocaleStrings|
    ensures |Split(DllRow(dll, locales), ',')| == |LocaleStrings| + 2
    ensures Split(DllRow(dll, locales), ',')[0] == dll
    ensures Split(DllRow(dll, locales), ',')[j + 1] == "Error" <==> LocaleStrings[j] !in locales
  {
    DllRowFields(dll, locales);
    var marks := Marks(LocaleStrings, locales, false);
    assert Split(DllRow(dll, locales), ',')[j + 1] == marks[j];
  }

  /** Once the dll table is written it lists every dll whose count is not
      the number of known locales, also those with too many. */
  lemma DllTableRows(c: LocalizedDlls, d: string)
    requires c.Valid() && DllTable(c).Some?
    ensures d in IncompleteDlls(c, 0) <==> d in c.entries && |c.entries[d]| != |LocaleStrings|
  {
    if d in c.entries {
      var j :| 0 <= j < |c.order| && c.order[j] == d;
    }
  }

  /** A written dll table means a fatal run. */
  lemma DllTableMeansFatal(a: Aggregate)
    requires WellFormed(a) && DllTable(a.localizedDlls).Some?
    ensures Fatal(a)
  {
  }

  /** The converse fails: a dll with more locales than are known is fatal
      but opens no dll table. */
  lemma OverfullDllWritesNoTable(dll: string, locales: seq<string>)
    requires |locales| > |LocaleStrings|
    ensures Fatal(Aggregate([], [], [], [], Empty(), Dict([dll], map[dll := locales])))
    ensures DllTable(Dict([dll], map[dll := locales])).None?
  {
    assert dll in map[dll := locales];
  }

  // ---------------------------------------------------------------------------
  // The log directory

  datatype Artifact = Json(text: string) | Csv(lines: seq<string>)

  /** The log directory: file name -> content. */
  type Files = map<string, Artifact>

  /** `LogErrors(logPath, errors, errorType, ...)`: a non-empty queue replaces
      any earlier file of that name; an empty one writes and deletes nothing. */
  function LogQueue(files: Files, errorType: string, errors: seq<StringResult>,
                    render: seq<StringResult> -> string): (r: Files)
    ensures r.Keys == files.Keys + (if errors != [] then {errorType + ".json"} else {})
    ensures errors != [] ==> r[errorType + ".json"] == Json(render(errors))
    ensures forall f :: f in files && (errors == [] || f != errorType + ".json") ==> r[f] == files[f]
  {
    if errors != [] then files[errorType + ".json" := Json(render(errors))] else files
  }

  /** A `LogCollectionToXslt` overload, given its table or `None`. */
  function LogTable(files: Files, fileName: string, table: Option<seq<string>>): (r: Files)
    ensures r.Keys == files.Keys + (if table.Some? then {fileName + ".csv"} else {})
    ensures table.Some? ==> r[fileName + ".csv"] == Csv(table.value)
    ensures forall f :: f in files && (table.None? || f != fileName + ".csv") ==> r[f] == files[f]
  {
    if table.Some? then files[fileName + ".csv" := Csv(table.value)] else files
  }

  /** `LogErrors(logPath, ...)`: the four queues, then the two tables. */
  function LogErrors(files: Files, a: Aggregate, render: seq<StringResult> -> string): Files
    requires WellFormed(a)
  {
    var f1 := LogQueue(files, "NotLocalizedStrings", a.identical, render);
    var f2 := LogQueue(f1, "MismatchStrings", a.mismatch, render);
    var f3 := LogQueue(f2, "MissingStrings", a.missing, render);
    var f4 := LogQueue(f3, "LockedStrings", a.locked, render);
    var f5 := LogTable(f4, "NotLocalizedStringsUnique", StringTable(a.deduped));
    LogTable(f5, "NotLocalizedDllUnique", DllTable(a.localizedDlls))
  }

  /** A queue leaves every file of another name as it was. */
  lemma QueueKeeps(files: Files, errorType: string, errors: seq<StringResult>,
                   render: seq<StringResult> -> string, f: string)
    requires f != errorType + ".json"
    ensures f in LogQueue(files, errorType, errors, render) <==> f in files
    ensures f in files ==> LogQueue(files, errorType, errors, render)[f] == files[f]
  {
  }

  /** A table leaves every file of another name as it was. */
  lemma TableKeeps(files: Files, fileName: string, table: Option<seq<string>>, f: string)
    requires f != fileName + ".csv"
    ensures f in LogTable(files, fileName, table) <==> f in files
    ensures f in files ==> LogTable(files, fileName, table)[f] == files[f]
  {
  }

  lemma MissingNameIsOwn(f: string)
    requires f == "MissingStrings.json"
    ensures f == "MissingStrings" + ".json"
    ensures f != "NotLocalizedStrings" + ".json" && f != "MismatchStrings" + ".json"
    ensures f != "LockedStrings" + ".json"
    ensures f != "NotLocalizedStringsUnique" + ".csv" && f != "NotLocalizedDllUnique" + ".csv"
  {
  }

  lemma TableNameIsOwn(f: string)
    requires f == "NotLocalizedStringsUnique.csv"
    ensures f == "NotLocalizedStringsUnique" + ".csv"
    ensures f != "NotLocalizedDllUnique" + ".csv"
  {
  }

  /** After logging, the missing-string report is there iff there are
      missing strings or a report from before was left in place; an empty
      queue therefore does not remove a stale report. */
  lemma MissingReportPresence(files: Files, a: Aggregate, render: seq<StringResult> -> string)
    requires WellFormed(a)
    ensures "MissingStrings.json" in LogErrors(files, a, render) <==> a.missing != [] || "MissingStrings.json" in files
    ensures a.missing != [] ==> LogErrors(files, a, render)["MissingStrings.json"] == Json(render(a.missing))
    ensures a.missing == [] && "MissingStrings.json" in files ==>
      LogErrors(files, a, render)["MissingStrings.json"] == files["MissingStrings.json"]
  {
    var f := "MissingStrings.json";
    MissingNameIsOwn(f);
    var f1 := LogQueue(files, "NotLocalizedStrings", a.identical, render);
    QueueKeeps(files, "NotLocalizedStrings", a.identical, render, f);
    var f2 := LogQueue(f1, "MismatchStrings", a.mismatch, render);
    QueueKeeps(f1, "MismatchStrings", a.mismatch, render, f);
    var f3 := LogQueue(f2, "MissingStrings", a.missing, render);
    var f4 := LogQueue(f3, "LockedStrings", a.locked, render);
    QueueKeeps(f3, "LockedStrings", a.locked, render, f);
    var f5 := LogTable(f4, "NotLocalizedStringsUnique", StringTable(a.deduped));
    TableKeeps(f4, "NotLocalizedStringsUnique", StringTable(a.deduped), f);
    TableKeeps(f5, "NotLocalizedDllUnique", DllTable(a.localizedDlls), f);
  }

  /** After logging, the untranslated-string table is there iff some string
      is untranslated or a table from before was left in place. */
  lemma StringTablePresence(files: Files, a: Aggregate, render: seq<StringResult> -> string)
    requires WellFormed(a)
    ensures "NotLocalizedStringsUnique.csv" in LogErrors(files, a, render)
        <==> a.deduped.entries != map[] || "NotLocalizedStringsUnique.csv" in files
    ensures a.deduped.entries != map[] ==>
      LogErrors(files, a, render)["NotLocalizedStringsUnique.csv"] == Csv(StringTable(a.deduped).value)
  {
    var f := "NotLocalizedStringsUnique.csv";
    TableNameIsOwn(f);
    var f1 := LogQueue(files, "NotLocalizedStrings", a.identical, render);
    var f2 := LogQueue(f1, "MismatchStrings", a.mismatch, render);
    var f3 := LogQueue(f2, "MissingStrings", a.missing, render);
    var f4 := LogQueue(f3, "LockedStrings", a.locked, render);
    var f5 := LogTable(f4, "NotLocalizedStringsUnique", StringTable(a.deduped));
    TableKeeps(f5, "NotLocalizedDllUnique", DllTable(a.localizedDlls), f);
  }
}
