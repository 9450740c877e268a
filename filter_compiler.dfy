/** The timeline filter tree and its compilation to an SQL WHERE condition: the
    getSQLWhere overloads of TimelineManager, their dispatch with its whitespace-insensitive
    collapse, and getActiveSubTypes. */
module FilterCompiler {
  import opened Wrappers
  import opened JavaStrings
  import opened Timeline
  import opened QueryText

  /** The selected and disabled flags every filter carries. */
  datatype Flags = Flags(selected: bool, disabled: bool)

  /** Filter.isActive(): selected and not disabled. */
  predicate Active(flags: Flags) {
    flags.selected && !flags.disabled
  }

  /** DescriptionFilter.FilterMode */
  datatype FilterMode = Include | Exclude

  /** A selectable sub-filter that names one id: a TagNameFilter (tag name id), a
      HashSetFilter (hash set id) or a DataSourceFilter (data source id). */
  datatype IdFilter = IdFilter(flags: Flags, id: int)

  /** TypeFilter: an event type and the type filters of its sub-types. */
  datatype TypeFilter = TypeFilter(flags: Flags, eventType: EventType, subFilters: seq<TypeFilter>)

  /** The closed set of filter variants getSQLWhere dispatches over, plus Unrecognised for
      an instance of any other Filter class. */
  datatype Filter =
    | Description(flags: Flags, descriptionLoD: DescriptionLoD, mode: FilterMode, description: string)
    | Tags(flags: Flags, tagNames: seq<IdFilter>)
    | HashHits(flags: Flags, hashSets: seq<IdFilter>)
    | DataSource(dataSource: IdFilter)
    | DataSources(flags: Flags, dataSources: seq<IdFilter>)
    | HideKnown(flags: Flags)
    | Text(flags: Flags, text: string)
    | Type(typeFilter: TypeFilter)
    | Intersection(flags: Flags, subFilters: seq<Filter>)
    | Union(flags: Flags, subFilters: seq<Filter>)
    | Unrecognised(flags: Flags, className: string)

  function FlagsOf(f: Filter): Flags {
    if f.DataSource? then f.dataSource.flags
    else if f.Type? then f.typeFilter.flags
    else f.flags
  }

  predicate IsActive(f: Filter) {
    Active(FlagsOf(f))
  }

  /** The active filters of cs, in order. */
  function ActiveOnly(cs: seq<Filter>): (r: seq<Filter>)
    ensures |r| <= |cs|
    ensures forall i :: 0 <= i < |r| ==> IsActive(r[i])
    ensures forall c :: c in r <==> c in cs && IsActive(c)
  {
    if cs == [] then []
    else (if IsActive(cs[0]) then [cs[0]] else []) + ActiveOnly(cs[1..])
  }

  /** Like stream().filter(Filter::isActive), ActiveOnly keeps the order and the repeats of
      its input: it is decided child by child and distributes over concatenation. */
  lemma {:induction false} ActiveOnlyIsFilter(a: seq<Filter>, b: seq<Filter>, c: Filter)
    ensures ActiveOnly([c]) == if IsActive(c) then [c] else []
    ensures ActiveOnly(a + b) == ActiveOnly(a) + ActiveOnly(b)
  {
    assert [c][1..] == [];
    if a == [] {
      assert a + b == b;
    } else {
      assert (a + b)[0] == a[0];
      assert (a + b)[1..] == a[1..] + b;
      ActiveOnlyIsFilter(a[1..], b, c);
    }
  }

  /** TskData.FileKnown.KNOWN.getFileKnownValue() */
  const KnownStateValue: int := 1

  /** getSQLWhere(HideKnownFilter) */
  function HideKnownSqlWhere(db: DbType, flags: Flags): string {
    if Active(flags) then "(known_state IS NOT '" + IntToString(KnownStateValue) + "')"
    else TrueLiteral(db)
  }

  /** getSQLWhere(DescriptionFilter) */
  function DescriptionSqlWhere(db: DbType, flags: Flags, lod: DescriptionLoD, mode: FilterMode,
                               description: string): string {
    if Active(flags) then "(" + DescriptionColumn(lod) + LikeOrNotLike(mode) + description + "'  )"
    else TrueLiteral(db)
  }

  /** The comparison of a description filter, up to the opening quote of the pattern. */
  function LikeOrNotLike(mode: FilterMode): (r: string)
    ensures mode == Include ==> r == " LIKE '"
    ensures mode == Exclude ==> r == " NOT LIKE '"
  {
    (if mode == Include then "" else " NOT") + " LIKE '"
  }

  /** The ids of the selected, enabled sub-filters, in their order. */
  function SelectedIds(subs: seq<IdFilter>): (r: seq<int>)
    ensures |r| <= |subs|
    ensures forall x :: x in r <==> exists i :: 0 <= i < |subs| && Active(subs[i].flags) && subs[i].id == x
  {
    if subs == [] then []
    else
      var rest := SelectedIds(subs[1..]);
      assert forall i :: 1 <= i < |subs| ==> subs[i] == subs[1..][i - 1];
      (if Active(subs[0].flags) then [subs[0].id] else []) + rest
  }

  /** Collectors.joining(", ", "(", ")") over the decimal ids. */
  function IdList(ids: seq<int>): string {
    "(" + Join(", ", DecimalStrings(ids)) + ")"
  }

  /** getSQLWhere(TagsFilter) */
  function TagsSqlWhere(db: DbType, flags: Flags, tagNames: seq<IdFilter>): string {
    if Active(flags) && tagNames != [] then
      "(events.event_id == tags.event_id AND " + "tags.tag_name_id IN " + IdList(SelectedIds(tagNames)) + ") "
    else TrueLiteral(db)
  }

  /** getSQLWhere(HashHitsFilter) */
  function HashHitsSqlWhere(db: DbType, flags: Flags, hashSets: seq<IdFilter>): string {
    if Active(flags) && hashSets != [] then
      "(hash_set_hits.hash_set_id IN " + IdList(SelectedIds(hashSets))
      + " AND hash_set_hits.event_id == events.event_id)"
    else TrueLiteral(db)
  }

  /** getSQLWhere(DataSourceFilter) */
  function DataSourceSqlWhere(db: DbType, dataSource: IdFilter): string {
    if Active(dataSource.flags) then "(datasource_id = '" + IntToString(dataSource.id) + "')"
    else TrueLiteral(db)
  }

  /** getSQLWhere(DataSourcesFilter) */
  function DataSourcesSqlWhere(db: DbType, flags: Flags, dataSources: seq<IdFilter>): string {
    if Active(flags) then "(datasource_id in (" + Join(", ", DecimalStrings(SelectedIds(dataSources))) + "))"
    else TrueLiteral(db)
  }

  /** getSQLWhere(TextFilter) */
  function TextSqlWhere(db: DbType, flags: Flags, text: string): string {
    if !Active(flags) || IsBlank(text) then TrueLiteral(db)
    else
      var stripped := Strip(text);
      "((med_description like '%" + stripped + "%')"
      + " or (full_description like '%" + stripped + "%')"
      + " or (short_description like '%" + stripped + "%'))"
  }

  /** Every sub-filter of t, and every sub-filter of those, is active. */
  predicate TwoLevelsActive(t: TypeFilter) {
    forall i :: 0 <= i < |t.subFilters| ==>
      Active(t.subFilters[i].flags)
      && forall j :: 0 <= j < |t.subFilters[i].subFilters| ==> Active(t.subFilters[i].subFilters[j].flags)
  }

  /** getSQLWhere(TypeFilter) */
  function TypeSqlWhere(db: DbType, t: TypeFilter): string {
    if !t.flags.selected then FalseLiteral(db)
    else if t.eventType.isRoot && TwoLevelsActive(t) then TrueLiteral(db)
    else "(sub_type IN (" + Join(",", DecimalStrings(ActiveSubTypes(t))) + "))"
  }

  /** getActiveSubTypes */
  function ActiveSubTypes(t: TypeFilter): seq<int>
    decreases t, 1
  {
    if !Active(t.flags) then []
    else if t.subFilters == [] then [t.eventType.typeIndex]
    else ActiveSubTypesOfAll(t.subFilters)
  }

  /** The flatMap of getActiveSubTypes over a list of type filters. */
  function ActiveSubTypesOfAll(ts: seq<TypeFilter>): seq<int>
    decreases ts, 0
  {
    if ts == [] then [] else ActiveSubTypes(ts[0]) + ActiveSubTypesOfAll(ts[1..])
  }

  /** getSQLWhere(IntersectionFilter) with " and ", getSQLWhere(UnionFilter) with " or ":
      the children's conditions joined, or the true literal when the join is blank. */
  function Combine(db: DbType, separator: string, parts: seq<string>): string {
    "(" + DefaultIfBlank(Join(separator, parts), TrueLiteral(db)) + ")"
  }

  /** The two whitespace-insensitive replacements applied to every dispatched result. */
  function Collapse(db: DbType, s: string): string {
    var first := if DeleteWhitespace(s) == "(1and1and1)" then TrueLiteral(db) else s;
    if DeleteWhitespace(first) == "()" then TrueLiteral(db) else first
  }

  /** getSQLWhere(Filter) on a non-null filter: dispatch on the variant, then collapse. */
  function SqlWhere(db: DbType, f: Filter): Result<string>
    decreases f, 1
  {
    var raw :- Dispatch(db, f);
    Ok(Collapse(db, raw))
  }

  /** The instanceof chain of getSQLWhere(Filter). */
  function Dispatch(db: DbType, f: Filter): Result<string>
    decreases f, 0
  {
    match f
    case Description(flags, lod, mode, description) => Ok(DescriptionSqlWhere(db, flags, lod, mode, description))
    case Tags(flags, tagNames) => Ok(TagsSqlWhere(db, flags, tagNames))
    case HashHits(flags, hashSets) => Ok(HashHitsSqlWhere(db, flags, hashSets))
    case DataSource(dataSource) => Ok(DataSourceSqlWhere(db, dataSource))
    case DataSources(flags, dataSources) => Ok(DataSourcesSqlWhere(db, flags, dataSources))
    case HideKnown(flags) => Ok(HideKnownSqlWhere(db, flags))
    case Text(flags, text) => Ok(TextSqlWhere(db, flags, text))
    case Type(t) => Ok(TypeSqlWhere(db, t))
    case Intersection(_, subFilters) =>
      var parts :- ActiveSqlWheres(db, subFilters);
      Ok(Combine(db, " and ", parts))
    case Union(_, subFilters) =>
      var parts :- ActiveSqlWheres(db, subFilters);
      Ok(Combine(db, " or ", parts))
    case Unrecognised(_, className) => Err("getSQLWhere not defined for " + className)
  }

  /** subFilters.stream().filter(Filter::isActive).map(this::getSQLWhere), stopping at the
      first exception. */
  function ActiveSqlWheres(db: DbType, cs: seq<Filter>): Result<seq<string>>
    decreases cs, 2
  {
    if cs == [] then Ok([])
    else if !IsActive(cs[0]) then ActiveSqlWheres(db, cs[1..])
    else
      var first :- SqlWhere(db, cs[0]);
      var rest :- ActiveSqlWheres(db, cs[1..]);
      Ok([first] + rest)
  }

  /** getSQLWhere(RootFilter), with None for a null filter. */
  function RootSqlWhere(db: DbType, f: Option<Filter>): (r: Result<string>)
    ensures f.None? ==> r == Ok(TrueLiteral(db))
  {
    match f
    case None => Ok(TrueLiteral(db))
    case Some(filter) => SqlWhere(db, filter)
  }

  // ---------------------------------------------------------------------------------
  // The collapse

  /** The collapse never turns a condition into anything but itself or the true literal,
      and collapsing twice is collapsing once. */
  lemma CollapseIdempotent(db: DbType, s: string)
    ensures Collapse(db, s) == s || Collapse(db, s) == TrueLiteral(db)
    ensures Collapse(db, Collapse(db, s)) == Collapse(db, s)
  {
    CollapseKeepsTrue(db);
  }

  lemma CollapseKeepsTrue(db: DbType)
    ensures Collapse(db, TrueLiteral(db)) == TrueLiteral(db)
  {
    LiteralsWellFormed(db);
    DeleteWhitespaceKeepsClean(TrueLiteral(db));
  }

  lemma CollapseKeepsFalse(db: DbType)
    ensures Collapse(db, FalseLiteral(db)) == FalseLiteral(db)
  {
    LiteralsWellFormed(db);
    DeleteWhitespaceKeepsClean(FalseLiteral(db));
  }

  /** A condition that opens with a parenthesis followed by a character other than
      whitespace, '1' or ')' survives the collapse. */
  lemma CollapseKeepsOpenWord(db: DbType, s: string)
    requires |s| >= 2 && s[0] == '(' && !IsWhitespace(s[1]) && s[1] != '1' && s[1] != ')'
    ensures Collapse(db, s) == s
  {
    assert s == [s[0]] + [s[1]] + s[2..];
    DeleteWhitespaceConcat([s[0]] + [s[1]], s[2..]);
    DeleteWhitespaceKeepsClean([s[0]] + [s[1]]);
    var d := DeleteWhitespace(s);
    assert d[1] == s[1];
  }

  /** A whitespace-free condition other than the two collapsed shapes survives too. */
  lemma CollapseKeepsClean(db: DbType, s: string)
    requires IsClean(s) && s != "(1and1and1)" && s != "()"
    ensures Collapse(db, s) == s
  {
    DeleteWhitespaceKeepsClean(s);
  }

  // ---------------------------------------------------------------------------------
  // Dispatch, the null filter and the unrecognised variant

  /** Some filter reached by the compiler, through active children of intersections and
      unions, is of an unrecognised variant. */
  predicate ReachesUnrecognised(f: Filter)
    decreases f
  {
    match f
    case Unrecognised(_, _) => true
    case Intersection(_, cs) => exists i :: 0 <= i < |cs| && IsActive(cs[i]) && ReachesUnrecognised(cs[i])
    case Union(_, cs) => exists i :: 0 <= i < |cs| && IsActive(cs[i]) && ReachesUnrecognised(cs[i])
    case _ => false
  }

  /** Compilation fails exactly when it reaches a filter of an unrecognised variant. */
  lemma {:induction false} ErrorIffUnrecognised(db: DbType, f: Filter)
    ensures SqlWhere(db, f).Err? <==> ReachesUnrecognised(f)
    decreases f, 1
  {
    match f
    case Intersection(_, cs) => ErrorIffUnrecognisedAmong(db, cs);
    case Union(_, cs) => ErrorIffUnrecognisedAmong(db, cs);
    case _ =>
  }

  lemma {:induction false} ErrorIffUnrecognisedAmong(db: DbType, cs: seq<Filter>)
    ensures ActiveSqlWheres(db, cs).Err? <==>
            exists i :: 0 <= i < |cs| && IsActive(cs[i]) && ReachesUnrecognised(cs[i])
    decreases cs, 0
  {
    if cs != [] {
      ErrorIffUnrecognisedAmong(db, cs[1..]);
      if IsActive(cs[0]) {
        ErrorIffUnrecognised(db, cs[0]);
      }
      assert forall i :: 1 <= i < |cs| ==> cs[i] == cs[1..][i - 1];
    }
  }

  // ---------------------------------------------------------------------------------
  // Intersections and unions

  /** Every active filter of cs compiles. */
  predicate AllActiveCompile(db: DbType, cs: seq<Filter>) {
    forall i :: 0 <= i < |ActiveOnly(cs)| ==> SqlWhere(db, ActiveOnly(cs)[i]).Ok?
  }

  /** parts holds the compiled condition of each active filter of cs, in order. */
  predicate CompiledActive(db: DbType, cs: seq<Filter>, parts: seq<string>) {
    |parts| == |ActiveOnly(cs)|
    && forall i :: 0 <= i < |parts| ==> SqlWhere(db, ActiveOnly(cs)[i]) == Ok(parts[i])
  }

  /** The list the combinators join is the compiled condition of each active child, in
      order; it exists exactly when every active child compiles. */
  lemma {:induction false} ActiveSqlWheresAreMap(db: DbType, cs: seq<Filter>)
    ensures ActiveSqlWheres(db, cs).Ok? <==> AllActiveCompile(db, cs)
    ensures ActiveSqlWheres(db, cs).Ok? ==> CompiledActive(db, cs, ActiveSqlWheres(db, cs).value)
  {
    if cs != [] {
      ActiveSqlWheresAreMap(db, cs[1..]);
      if IsActive(cs[0]) {
        AllActiveCompileStep(db, cs);
        if ActiveSqlWheres(db, cs).Ok? {
          CompiledActiveStep(db, cs, SqlWhere(db, cs[0]).value, ActiveSqlWheres(db, cs[1..]).value);
        }
      } else {
        assert ActiveOnly(cs) == ActiveOnly(cs[1..]);
      }
    }
  }

  lemma AllActiveCompileStep(db: DbType, cs: seq<Filter>)
    requires cs != [] && IsActive(cs[0])
    ensures AllActiveCompile(db, cs) <==> SqlWhere(db, cs[0]).Ok? && AllActiveCompile(db, cs[1..])
  {
    var a := ActiveOnly(cs);
    var tail := ActiveOnly(cs[1..]);
    assert a == [cs[0]] + tail;
    if SqlWhere(db, cs[0]).Ok? && AllActiveCompile(db, cs[1..]) {
      forall i | 0 <= i < |a| ensures SqlWhere(db, a[i]).Ok? {
        if i > 0 {
          assert a[i] == tail[i - 1];
        }
      }
    }
    if AllActiveCompile(db, cs) {
      assert SqlWhere(db, a[0]).Ok?;
      forall i | 0 <= i < |tail| ensures SqlWhere(db, tail[i]).Ok? {
        assert tail[i] == a[i + 1];
      }
    }
  }

  lemma CompiledActiveStep(db: DbType, cs: seq<Filter>, first: string, rest: seq<string>)
    requires cs != [] && IsActive(cs[0])
    requires SqlWhere(db, cs[0]) == Ok(first) && CompiledActive(db, cs[1..], rest)
    ensures CompiledActive(db, cs, [first] + rest)
  {
    var a := ActiveOnly(cs);
    var tail := ActiveOnly(cs[1..]);
    assert a == [cs[0]] + tail;
    var parts := [first] + rest;
    forall i | 0 <= i < |parts| ensures SqlWhere(db, a[i]) == Ok(parts[i]) {
      if i > 0 {
        assert a[i] == tail[i - 1] && parts[i] == rest[i - 1];
      }
    }
  }

  /** An intersection compiles to "(" + its active children's conditions joined with
      " and " + ")", a union likewise with " or ", before the collapse. */
  lemma CombinatorsJoinActiveChildren(db: DbType, flags: Flags, cs: seq<Filter>, parts: seq<string>)
    requires CompiledActive(db, cs, parts)
    ensures SqlWhere(db, Intersection(flags, cs)) == Ok(Collapse(db, Combine(db, " and ", parts)))
    ensures SqlWhere(db, Union(flags, cs)) == Ok(Collapse(db, Combine(db, " or ", parts)))
  {
    ActiveSqlWheresAreMap(db, cs);
    assert AllActiveCompile(db, cs) by {
      forall i | 0 <= i < |ActiveOnly(cs)| ensures SqlWhere(db, ActiveOnly(cs)[i]).Ok? {
        assert SqlWhere(db, ActiveOnly(cs)[i]) == Ok(parts[i]);
      }
    }
    var got := ActiveSqlWheres(db, cs).value;
    assert got == parts by {
      forall i | 0 <= i < |parts| ensures got[i] == parts[i] {
        assert SqlWhere(db, ActiveOnly(cs)[i]) == Ok(got[i]);
      }
    }
    assert ActiveSqlWheres(db, cs) == Ok(parts);
    assert Dispatch(db, Intersection(flags, cs)) == Ok(Combine(db, " and ", parts));
    assert Dispatch(db, Union(flags, cs)) == Ok(Combine(db, " or ", parts));
  }

  /** A combinator without an active child compiles to the parenthesised true literal:
      never the false literal, whatever its own flags say. */
  lemma NoActiveChildIsTrue(db: DbType, flags: Flags, cs: seq<Filter>)
    requires ActiveOnly(cs) == []
    ensures SqlWhere(db, Intersection(flags, cs)) == Ok("(" + TrueLiteral(db) + ")")
    ensures SqlWhere(db, Union(flags, cs)) == Ok("(" + TrueLiteral(db) + ")")
    ensures "(" + TrueLiteral(db) + ")" != FalseLiteral(db)
  {
    CombinatorsJoinActiveChildren(db, flags, cs, []);
    LiteralsWellFormed(db);
    var t := TrueLiteral(db);
    var s := "(" + t + ")";
    assert IsClean(s) by {
      forall i | 0 <= i < |s| ensures !IsWhitespace(s[i]) {
        if 0 < i < |s| - 1 {
          assert s[i] == t[i - 1];
        }
      }
    }
    assert |s| == |t| + 2 && |t| <= 4;
    CollapseKeepsClean(db, s);
  }

  lemma {:induction false} ActiveSqlWheresSkipInactive(db: DbType, a: seq<Filter>, x: Filter, b: seq<Filter>)
    requires !IsActive(x)
    ensures ActiveSqlWheres(db, a + [x] + b) == ActiveSqlWheres(db, a + b)
  {
    if a == [] {
      assert (a + [x] + b)[1..] == b;
      assert a + b == b;
    } else {
      assert (a + [x] + b)[0] == a[0] && (a + b)[0] == a[0];
      assert (a + [x] + b)[1..] == a[1..] + [x] + b;
      assert (a + b)[1..] == a[1..] + b;
      ActiveSqlWheresSkipInactive(db, a[1..], x, b);
    }
  }

  /** An inactive child is the neutral element of both combinators: removing it, wherever
      it stands, changes nothing. */
  lemma InactiveChildAbsorbed(db: DbType, flags: Flags, a: seq<Filter>, x: Filter, b: seq<Filter>)
    requires !IsActive(x)
    ensures SqlWhere(db, Intersection(flags, a + [x] + b)) == SqlWhere(db, Intersection(flags, a + b))
    ensures SqlWhere(db, Union(flags, a + [x] + b)) == SqlWhere(db, Union(flags, a + b))
  {
    ActiveSqlWheresSkipInactive(db, a, x, b);
    assert Dispatch(db, Intersection(flags, a + [x] + b)) == Dispatch(db, Intersection(flags, a + b));
    assert Dispatch(db, Union(flags, a + [x] + b)) == Dispatch(db, Union(flags, a + b));
  }

  /** Deleting the whitespace of three joined copies of a whitespace-free condition only
      squeezes the separators. */
  lemma SqueezeTriple(x: string, separator: string, squeezed: string)
    requires IsClean(x) && DeleteWhitespace(separator) == squeezed
    ensures DeleteWhitespace("(" + x + separator + x + separator + x + ")") ==
            "(" + x + squeezed + x + squeezed + x + ")"
  {
    var open, close := "(", ")";
    DeleteWhitespaceKeepsClean(open);
    DeleteWhitespaceKeepsClean(close);
    DeleteWhitespaceKeepsClean(x);
    DeleteWhitespaceConcat(open + x + separator + x + separator + x, close);
    DeleteWhitespaceConcat(open + x + separator + x + separator, x);
    DeleteWhitespaceConcat(open + x + separator + x, separator);
    DeleteWhitespaceConcat(open + x + separator, x);
    DeleteWhitespaceConcat(open + x, separator);
    DeleteWhitespaceConcat(open, x);
  }

  lemma JoinThree(x: string, separator: string)
    ensures Join(separator, [x, x, x]) == x + separator + x + separator + x
  {
    var parts := [x, x, x];
    assert parts[1..] == [x, x];
    assert [x, x][1..] == [x];
    assert Join(separator, [x]) == x;
    assert Join(separator, [x, x]) == x + separator + x;
    assert Join(separator, parts) == x + separator + (x + separator + x);
  }

  lemma SqueezedTripleLiteral()
    ensures "(" + "1" + "and" + "1" + "and" + "1" + ")" == "(1and1and1)"
  {
  }

  /** The SQLite conjunction of three true literals is the first collapsed shape. */
  lemma SqliteTripleCollapses()
    ensures Collapse(SQLite, Combine(SQLite, " and ", ["1", "1", "1"])) == "1"
  {
    var one := "1";
    var parts := [one, one, one];
    JoinThree(one, " and ");
    var joined := Join(" and ", parts);
    assert !IsBlank(joined) by {
      assert !IsWhitespace(one[0]);
      JoinStartsWithFirst(" and ", parts);
    }
    var s := Combine(SQLite, " and ", parts);
    assert s == "(" + one + " and " + one + " and " + one + ")";
    assert DeleteWhitespace(" and ") == "and";
    SqueezeTriple(one, " and ", "and");
    SqueezedTripleLiteral();
    assert DeleteWhitespace(s) == "(1and1and1)";
  }

  /** On SQLite, a conjunction of exactly three active children that each compile to the
      true literal collapses to the true literal. */
  lemma ThreeTrueConjunctsCollapse(flags: Flags, cs: seq<Filter>)
    requires |ActiveOnly(cs)| == 3
    requires forall i :: 0 <= i < 3 ==> SqlWhere(SQLite, ActiveOnly(cs)[i]) == Ok("1")
    ensures SqlWhere(SQLite, Intersection(flags, cs)) == Ok("1")
  {
    assert CompiledActive(SQLite, cs, ["1", "1", "1"]);
    CombinatorsJoinActiveChildren(SQLite, flags, cs, ["1", "1", "1"]);
    SqliteTripleCollapses();
  }

  // ---------------------------------------------------------------------------------
  // Leaves

  predicate IsLeaf(f: Filter) {
    f.Description? || f.Tags? || f.HashHits? || f.DataSource? || f.DataSources? || f.HideKnown? || f.Text?
  }

  /** An inactive hide-known, description, data-source, data-sources, text, tags or
      hash-hits filter compiles to the true literal. */
  lemma InactiveLeafIsTrue(db: DbType, f: Filter)
    requires IsLeaf(f) && !IsActive(f)
    ensures SqlWhere(db, f) == Ok(TrueLiteral(db))
  {
    CollapseKeepsTrue(db);
  }

  /** A text filter with blank text, and a tags or hash-hits filter without sub-filters,
      compile to the true literal even when active. */
  lemma VacuousLeavesAreTrue(db: DbType, flags: Flags, text: string)
    ensures IsBlank(text) ==> SqlWhere(db, Text(flags, text)) == Ok(TrueLiteral(db))
    ensures SqlWhere(db, Tags(flags, [])) == Ok(TrueLiteral(db))
    ensures SqlWhere(db, HashHits(flags, [])) == Ok(TrueLiteral(db))
  {
    CollapseKeepsTrue(db);
  }

  /** An active tags filter with sub-filters keeps the ids of exactly its selected,
      enabled tag names and correlates the event with the joined tags row. */
  lemma ActiveTagsCondition(db: DbType, flags: Flags, tagNames: seq<IdFilter>)
    requires Active(flags) && tagNames != []
    ensures SqlWhere(db, Tags(flags, tagNames)) ==
            Ok("(events.event_id == tags.event_id AND " + "tags.tag_name_id IN " + IdList(SelectedIds(tagNames)) + ") ")
  {
    var s := TagsSqlWhere(db, flags, tagNames);
    assert Dispatch(db, Tags(flags, tagNames)) == Ok(s);
    assert s[1] == 'e';
    CollapseKeepsOpenWord(db, s);
  }

  /** An active hash-hits filter with sub-filters keeps the ids of exactly its selected,
      enabled hash sets and correlates the joined hash_set_hits row with the event. */
  lemma ActiveHashHitsCondition(db: DbType, flags: Flags, hashSets: seq<IdFilter>)
    requires Active(flags) && hashSets != []
    ensures SqlWhere(db, HashHits(flags, hashSets)) ==
            Ok("(hash_set_hits.hash_set_id IN " + IdList(SelectedIds(hashSets))
               + " AND hash_set_hits.event_id == events.event_id)")
  {
    var s := HashHitsSqlWhere(db, flags, hashSets);
    assert s[1] == 'h';
    CollapseKeepsOpenWord(db, s);
  }

  lemma {:induction false} SelectedIdsSkipDeselected(a: seq<IdFilter>, x: IdFilter, b: seq<IdFilter>)
    requires !Active(x.flags)
    ensures SelectedIds(a + [x] + b) == SelectedIds(a + b)
  {
    if a == [] {
      assert (a + [x] + b)[1..] == b;
      assert a + b == b;
    } else {
      assert (a + [x] + b)[0] == a[0] && (a + b)[0] == a[0];
      assert (a + [x] + b)[1..] == a[1..] + [x] + b;
      assert (a + b)[1..] == a[1..] + b;
      SelectedIdsSkipDeselected(a[1..], x, b);
    }
  }

  /** A deselected or disabled tag name, hash set or data source does not change the
      condition, as long as some other sub-filter remains. */
  lemma DeselectedSubFilterIgnored(db: DbType, flags: Flags, a: seq<IdFilter>, x: IdFilter, b: seq<IdFilter>)
    requires !Active(x.flags)
    requires a + b != []
    ensures SqlWhere(db, Tags(flags, a + [x] + b)) == SqlWhere(db, Tags(flags, a + b))
    ensures SqlWhere(db, HashHits(flags, a + [x] + b)) == SqlWhere(db, HashHits(flags, a + b))
    ensures SqlWhere(db, DataSources(flags, a + [x] + b)) == SqlWhere(db, DataSources(flags, a + b))
  {
    SelectedIdsSkipDeselected(a, x, b);
    var c, d := a + [x] + b, a + b;
    assert TagsSqlWhere(db, flags, c) == TagsSqlWhere(db, flags, d);
    assert HashHitsSqlWhere(db, flags, c) == HashHitsSqlWhere(db, flags, d);
    assert DataSourcesSqlWhere(db, flags, c) == DataSourcesSqlWhere(db, flags, d);
    assert Dispatch(db, Tags(flags, c)) == Dispatch(db, Tags(flags, d));
    assert Dispatch(db, HashHits(flags, c)) == Dispatch(db, HashHits(flags, d));
    assert Dispatch(db, DataSources(flags, c)) == Dispatch(db, DataSources(flags, d));
  }

  /** Without a selected, enabled sub-filter there are no ids. */
  lemma {:induction false} NoSelectedIds(subs: seq<IdFilter>)
    requires forall i :: 0 <= i < |subs| ==> !Active(subs[i].flags)
    ensures SelectedIds(subs) == []
  {
    if subs != [] {
      assert forall i :: 0 <= i < |subs[1..]| ==> subs[1..][i] == subs[i + 1];
      NoSelectedIds(subs[1..]);
    }
  }

  /** An active tags filter whose sub-filters are all deselected is not "no restriction":
      it asks for a tag name id in the empty list. */
  lemma AllDeselectedTagsMatchNothing(db: DbType, flags: Flags, tagNames: seq<IdFilter>)
    requires Active(flags) && tagNames != []
    requires forall i :: 0 <= i < |tagNames| ==> !Active(tagNames[i].flags)
    ensures SqlWhere(db, Tags(flags, tagNames)) ==
            Ok("(events.event_id == tags.event_id AND " + "tags.tag_name_id IN " + "()" + ") ")
  {
    ActiveTagsCondition(db, flags, tagNames);
    NoSelectedIds(tagNames);
    assert IdList(SelectedIds(tagNames)) == "()";
  }

  lemma SqlWhereOfText(db: DbType, flags: Flags, text: string)
    ensures SqlWhere(db, Text(flags, text)) == Ok(Collapse(db, TextSqlWhere(db, flags, text)))
  {
    assert Dispatch(db, Text(flags, text)) == Ok(TextSqlWhere(db, flags, text));
  }

  /** Only the stripped text matters: texts that differ in surrounding whitespace compile
      alike. */
  lemma TextConditionUsesStrippedText(db: DbType, flags: Flags, t1: string, t2: string)
    requires Strip(t1) == Strip(t2)
    ensures SqlWhere(db, Text(flags, t1)) == SqlWhere(db, Text(flags, t2))
  {
    assert IsBlank(t1) <==> IsBlank(t2);
    assert TextSqlWhere(db, flags, t1) == TextSqlWhere(db, flags, t2);
    SqlWhereOfText(db, flags, t1);
    SqlWhereOfText(db, flags, t2);
  }

  /** The text search opens with two parentheses, whatever the text. */
  lemma TextSearchOpens(x: string)
    ensures var s := "((med_description like '%" + x + "%')"
                     + " or (full_description like '%" + x + "%')"
                     + " or (short_description like '%" + x + "%'))";
            |s| >= 2 && s[0] == '(' && s[1] == '('
  {
  }

  /** An active text filter with text that is not blank searches all three description
      columns for the stripped text. */
  lemma ActiveTextCondition(db: DbType, flags: Flags, text: string)
    requires Active(flags) && !IsBlank(text)
    ensures SqlWhere(db, Text(flags, text)) ==
            Ok("((med_description like '%" + Strip(text) + "%')"
               + " or (full_description like '%" + Strip(text) + "%')"
               + " or (short_description like '%" + Strip(text) + "%'))")
  {
    var s := TextSqlWhere(db, flags, text);
    SqlWhereOfText(db, flags, text);
    TextSearchOpens(Strip(text));
    CollapseKeepsOpenWord(db, s);
  }

  /** An active hide-known filter excludes the KNOWN state only; an active data-source
      filter restricts to its own id. */
  lemma ActiveSimpleLeafConditions(db: DbType, flags: Flags, dataSource: IdFilter)
    ensures Active(flags) ==> SqlWhere(db, HideKnown(flags)) == Ok("(known_state IS NOT '" + "1" + "')")
    ensures Active(dataSource.flags) ==>
            SqlWhere(db, DataSource(dataSource)) == Ok("(datasource_id = '" + IntToString(dataSource.id) + "')")
  {
    if Active(flags) {
      var s := HideKnownSqlWhere(db, flags);
      assert IntToString(KnownStateValue) == "1";
      assert Dispatch(db, HideKnown(flags)) == Ok(s);
      assert s[1] == 'k';
      CollapseKeepsOpenWord(db, s);
    }
    if Active(dataSource.flags) {
      var s := DataSourceSqlWhere(db, dataSource);
      assert Dispatch(db, DataSource(dataSource)) == Ok(s);
      assert s[1] == 'd';
      CollapseKeepsOpenWord(db, s);
    }
  }

  /** An active data-sources filter keeps the ids of exactly its active sub-filters. */
  lemma ActiveDataSourcesCondition(db: DbType, flags: Flags, dataSources: seq<IdFilter>)
    requires Active(flags)
    ensures SqlWhere(db, DataSources(flags, dataSources)) ==
            Ok("(datasource_id in (" + Join(", ", DecimalStrings(SelectedIds(dataSources))) + "))")
  {
    var s := DataSourcesSqlWhere(db, flags, dataSources);
    assert Dispatch(db, DataSources(flags, dataSources)) == Ok(s);
    assert s[1] == 'd';
    CollapseKeepsOpenWord(db, s);
  }

  /** An active description filter matches the column of its own level of detail, with
      LIKE when it includes and NOT LIKE when it excludes. */
  lemma ActiveDescriptionCondition(db: DbType, flags: Flags, lod: DescriptionLoD, mode: FilterMode,
                                   description: string)
    requires Active(flags)
    ensures mode == Include ==>
            SqlWhere(db, Description(flags, lod, mode, description)) ==
            Ok("(" + DescriptionColumn(lod) + " LIKE '" + description + "'  )")
    ensures mode == Exclude ==>
            SqlWhere(db, Description(flags, lod, mode, description)) ==
            Ok("(" + DescriptionColumn(lod) + " NOT LIKE '" + description + "'  )")
  {
    var s := DescriptionSqlWhere(db, flags, lod, mode, description);
    assert Dispatch(db, Description(flags, lod, mode, description)) == Ok(s);
    assert s[1] == DescriptionColumn(lod)[0];
    CollapseKeepsOpenWord(db, s);
  }

  // ---------------------------------------------------------------------------------
  // Type filters

  /** The three outcomes of a type filter: the false literal exactly when it is not
      selected, the true literal exactly for a selected root whose two levels below are
      active, and otherwise a restriction to the ids getActiveSubTypes collects. */
  lemma TypeFilterCondition(db: DbType, t: TypeFilter)
    ensures SqlWhere(db, Type(t)) == Ok(FalseLiteral(db)) <==> !t.flags.selected
    ensures SqlWhere(db, Type(t)) == Ok(TrueLiteral(db)) <==>
            t.flags.selected && t.eventType.isRoot && TwoLevelsActive(t)
    ensures t.flags.selected && !(t.eventType.isRoot && TwoLevelsActive(t)) ==>
            SqlWhere(db, Type(t)) == Ok("(sub_type IN (" + Join(",", DecimalStrings(ActiveSubTypes(t))) + "))")
  {
    LiteralsWellFormed(db);
    CollapseKeepsTrue(db);
    CollapseKeepsFalse(db);
    var s := TypeSqlWhere(db, t);
    if t.flags.selected && !(t.eventType.isRoot && TwoLevelsActive(t)) {
      assert s[1] == 's';
      CollapseKeepsOpenWord(db, s);
      assert s[0] == '(';
      assert s != TrueLiteral(db) && s != FalseLiteral(db) by {
        assert '(' in s;
      }
    }
  }

  /** Every node from t down to the leaf with index x is active. */
  predicate ReachesActiveLeaf(t: TypeFilter, x: int)
    decreases t
  {
    Active(t.flags)
    && if t.subFilters == [] then x == t.eventType.typeIndex
       else exists i :: 0 <= i < |t.subFilters| && ReachesActiveLeaf(t.subFilters[i], x)
  }

  /** getActiveSubTypes collects exactly the leaves reachable through active nodes: an
      inactive node cuts off its whole subtree. */
  lemma {:induction false} ActiveSubTypesAreActiveLeaves(t: TypeFilter, x: int)
    ensures x in ActiveSubTypes(t) <==> ReachesActiveLeaf(t, x)
    decreases t, 1
  {
    if Active(t.flags) && t.subFilters != [] {
      ActiveSubTypesOfAllAreActiveLeaves(t.subFilters, x);
    }
  }

  lemma {:induction false} ActiveSubTypesOfAllAreActiveLeaves(ts: seq<TypeFilter>, x: int)
    ensures x in ActiveSubTypesOfAll(ts) <==> exists i :: 0 <= i < |ts| && ReachesActiveLeaf(ts[i], x)
    decreases ts, 0
  {
    if ts != [] {
      ActiveSubTypesAreActiveLeaves(ts[0], x);
      ActiveSubTypesOfAllAreActiveLeaves(ts[1..], x);
      assert forall i :: 1 <= i < |ts| ==> ts[i] == ts[1..][i - 1];
    }
  }

  /** The flatMap is an in-order concatenation. */
  lemma {:induction false} ActiveSubTypesOfAllConcat(a: seq<TypeFilter>, b: seq<TypeFilter>)
    ensures ActiveSubTypesOfAll(a + b) == ActiveSubTypesOfAll(a) + ActiveSubTypesOfAll(b)
  {
    if a == [] {
      assert a + b == b;
    } else {
      assert (a + b)[0] == a[0];
      assert (a + b)[1..] == a[1..] + b;
      ActiveSubTypesOfAllConcat(a[1..], b);
    }
  }

  /** An inactive sub-filter contributes no ids, wherever it stands. */
  lemma InactiveSubtreeContributesNothing(a: seq<TypeFilter>, u: TypeFilter, b: seq<TypeFilter>)
    requires !Active(u.flags)
    ensures ActiveSubTypesOfAll(a + [u] + b) == ActiveSubTypesOfAll(a + b)
  {
    ActiveSubTypesOfAllConcat(a + [u], b);
    ActiveSubTypesOfAllConcat(a, [u]);
    ActiveSubTypesOfAllConcat(a, b);
    assert [u][1..] == [];
  }

  /** The leaf indices of a type tree. */
  function Leaves(t: TypeFilter): set<int>
    decreases t
  {
    if t.subFilters == [] then {t.eventType.typeIndex}
    else set i, x | 0 <= i < |t.subFilters| && x in Leaves(t.subFilters[i]) :: x
  }

  /** On a two-level hierarchy (root, base types, sub-types) the root collapse is sound:
      when the root and its two levels are active, getActiveSubTypes would list every
      leaf, so the true literal loses no restriction the id list would make. */
  lemma RootCollapseIsSound(t: TypeFilter, x: int)
    requires Active(t.flags) && TwoLevelsActive(t)
    requires forall i, j :: 0 <= i < |t.subFilters| && 0 <= j < |t.subFilters[i].subFilters| ==>
               t.subFilters[i].subFilters[j].subFilters == []
    requires x in Leaves(t)
    ensures x in ActiveSubTypes(t)
  {
    ActiveSubTypesAreActiveLeaves(t, x);
    if t.subFilters != [] {
      var i :| 0 <= i < |t.subFilters| && x in Leaves(t.subFilters[i]);
      var c := t.subFilters[i];
      if c.subFilters != [] {
        var j :| 0 <= j < |c.subFilters| && x in Leaves(c.subFilters[j]);
        assert ReachesActiveLeaf(c.subFilters[j], x);
        assert ReachesActiveLeaf(c, x);
      }
      assert ReachesActiveLeaf(c, x);
    }
  }

  /** The collapse tests isSelected(), not isActive(): a selected but disabled root whose
      only sub-type is active still compiles to the true literal, although
      getActiveSubTypes lists nothing for it. */
  lemma DisabledRootStillCollapses(db: DbType) returns (root: TypeFilter)
    ensures root.flags.selected && !Active(root.flags) && root.eventType.isRoot
    ensures SqlWhere(db, Type(root)) == Ok(TrueLiteral(db))
    ensures 5 in Leaves(root) && ActiveSubTypes(root) == []
  {
    var leaf := TypeFilter(Flags(true, false), EventType(5, false), []);
    root := TypeFilter(Flags(true, true), EventType(0, true), [leaf]);
    CollapseKeepsTrue(db);
    assert 5 in Leaves(root.subFilters[0]);
  }

  /** An intersection or a union compiles only its active children, so wherever a
      combinator compiles a root type filter that collapses, the collapse is sound. */
  lemma CompiledRootCollapseIsSound(cs: seq<Filter>, t: TypeFilter, x: int)
    requires Type(t) in ActiveOnly(cs)
    requires t.flags.selected && t.eventType.isRoot && TwoLevelsActive(t)
    requires forall i, j :: 0 <= i < |t.subFilters| && 0 <= j < |t.subFilters[i].subFilters| ==>
               t.subFilters[i].subFilters[j].subFilters == []
    requires x in Leaves(t)
    ensures Active(t.flags) && x in ActiveSubTypes(t)
  {
    assert IsActive(Type(t));
    RootCollapseIsSound(t, x);
  }
}
