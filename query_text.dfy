/** The dialect-dependent literals, the column and strftime-format lookups, the
    group-concat call builder and the splitting of a group-concat payload
    (unGroupConcat) used by the timeline queries. */
module QueryText {
  import opened Wrappers
  import opened JavaStrings
  import opened Timeline

  /** getTrueLiteral */
  function TrueLiteral(db: DbType): string {
    if db == PostgreSQL then "TRUE" else "1"
  }

  /** getFalseLiteral */
  function FalseLiteral(db: DbType): string {
    if db == PostgreSQL then "FALSE" else "0"
  }

  /** The two literals differ, are not blank and have no whitespace or parentheses in
      them, so the whitespace-insensitive collapse of the compiler leaves them alone. */
  lemma LiteralsWellFormed(db: DbType)
    ensures TrueLiteral(db) != FalseLiteral(db)
    ensures |TrueLiteral(db)| > 0 && IsClean(TrueLiteral(db))
    ensures |FalseLiteral(db)| > 0 && IsClean(FalseLiteral(db))
    ensures '(' !in TrueLiteral(db) && '(' !in FalseLiteral(db)
  {
  }

  /** getDescriptionColumn: the events column holding the description at a level of detail. */
  function DescriptionColumn(lod: DescriptionLoD): string {
    match lod
    case Full => "full_description"
    case Medium => "med_description"
    case Short => "short_description"
  }

  /** Every level of detail reads its own column. */
  lemma DescriptionColumnInjective(a: DescriptionLoD, b: DescriptionLoD)
    ensures DescriptionColumn(a) == DescriptionColumn(b) <==> a == b
  {
    if a != b {
      assert DescriptionColumn(a)[0] != DescriptionColumn(b)[0];
    }
  }

  /** typeColumnHelper: the sub-type column or the base-type column. */
  function TypeColumn(useSubTypes: bool): string {
    if useSubTypes then "sub_type" else "base_type"
  }

  lemma TypeColumnInjective(a: bool, b: bool)
    ensures TypeColumn(a) == TypeColumn(b) <==> a == b
  {
    if a != b {
      assert TypeColumn(a)[0] != TypeColumn(b)[0];
    }
  }

  /** getStrfTimeFormat: the SQLite strftime pattern that groups timestamps into buckets
      of the given size; a unit the switch does not name falls back to seconds. */
  function StrfTimeFormat(unit: TimeUnits): string {
    match unit
    case Years => "%Y-01-01T00:00:00"
    case Months => "%Y-%m-01T00:00:00"
    case Days => "%Y-%m-%dT00:00:00"
    case Hours => "%Y-%m-%dT%H:00:00"
    case Minutes => "%Y-%m-%dT%H:%M:00"
    case _ => "%Y-%m-%dT%H:%M:%S"
  }

  /** How many of the fields year, month, day, hour, minute, second a bucket keeps. */
  function Precision(unit: TimeUnits): nat {
    match unit
    case Years => 1
    case Months => 2
    case Days => 3
    case Hours => 4
    case Minutes => 5
    case _ => 6
  }

  /** The strftime directive of a field when the bucket keeps it, its floor otherwise. */
  function KeepOrFloor(precision: nat, field: nat, directive: string, floor: string): string {
    if field < precision then directive else floor
  }

  /** An ISO-8601 pattern that keeps the first `precision` fields and replaces the finer
      ones by their smallest value. */
  function TruncatingFormat(precision: nat): string {
    "%Y-" + KeepOrFloor(precision, 1, "%m", "01")
    + "-" + KeepOrFloor(precision, 2, "%d", "01")
    + "T" + KeepOrFloor(precision, 3, "%H", "00")
    + ":" + KeepOrFloor(precision, 4, "%M", "00")
    + ":" + KeepOrFloor(precision, 5, "%S", "00")
  }

  /** Every bucket format drops exactly the information finer than its unit. */
  lemma StrfTimeFormatTruncates(unit: TimeUnits)
    ensures StrfTimeFormat(unit) == TruncatingFormat(Precision(unit))
  {
    if Precision(unit) <= 3 {
      DateFormatsTruncate(unit);
    } else {
      TimeFormatsTruncate(unit);
    }
  }

  lemma DateFormatsTruncate(unit: TimeUnits)
    requires Precision(unit) <= 3
    ensures StrfTimeFormat(unit) == TruncatingFormat(Precision(unit))
  {
  }

  lemma TimeFormatsTruncate(unit: TimeUnits)
    requires Precision(unit) > 3
    ensures StrfTimeFormat(unit) == TruncatingFormat(Precision(unit))
  {
  }

  /** The aggregate that concatenates grouped values in the dialect. */
  function CsvFunction(db: DbType): string {
    if db == PostgreSQL then "string_agg" else "group_concat"
  }

  /** csvAggFunction(args, seperator) */
  function CsvAggFunctionWith(db: DbType, args: string, separator: string): string {
    CsvFunction(db) + "(" + args + ", '" + separator + "')"
  }

  /** csvAggFunction(args): the separator is a comma. */
  function CsvAggFunction(db: DbType, args: string): string {
    CsvAggFunctionWith(db, args, ",")
  }

  lemma CancelPrefix(p: string, x: string, y: string)
    requires p + x == p + y
    ensures x == y
  {
    assert x == (p + x)[|p|..];
    assert y == (p + y)[|p|..];
  }

  lemma CancelSuffix(x: string, y: string, e: string)
    requires x + e == y + e
    ensures x == y
  {
    assert x == (x + e)[..|x|];
    assert y == (y + e)[..|y|];
  }

  /** In `a + ", '" + s` the quote opening s sits just before it, and s supplies the rest. */
  lemma QuotedTailShape(a: string, s: string, k: int)
    ensures (a + ", '" + s)[|a| + 2] == '\''
    ensures |a| + 3 <= k < |a| + 3 + |s| ==> (a + ", '" + s)[k] == s[k - |a| - 3]
  {
  }

  /** `a + ", '" + s` determines a and s when s has no quote. */
  lemma QuotedTailInjective(a1: string, s1: string, a2: string, s2: string)
    requires '\'' !in s1 && '\'' !in s2
    requires a1 + ", '" + s1 == a2 + ", '" + s2
    ensures a1 == a2 && s1 == s2
  {
    var x := a1 + ", '" + s1;
    var y := a2 + ", '" + s2;
    QuotedTailShape(a1, s1, |a2| + 2);
    QuotedTailShape(a2, s2, |a1| + 2);
    assert |s1| == |s2|;
    assert s1 == x[|x| - |s1|..] && s2 == y[|y| - |s2|..];
    assert a1 == x[..|a1|] && a2 == y[..|a2|];
  }

  lemma CsvAggFunctionFirstChar(db: DbType, args: string, separator: string)
    ensures CsvAggFunctionWith(db, args, separator)[0] == if db == PostgreSQL then 's' else 'g'
  {
  }

  /** The call text determines the dialect, the aggregated expression and the separator,
      as long as the separator has no quote in it. */
  lemma CsvAggFunctionInjective(db1: DbType, args1: string, sep1: string,
                                db2: DbType, args2: string, sep2: string)
    requires '\'' !in sep1 && '\'' !in sep2
    requires CsvAggFunctionWith(db1, args1, sep1) == CsvAggFunctionWith(db2, args2, sep2)
    ensures db1 == db2 && args1 == args2 && sep1 == sep2
  {
    var c1 := CsvAggFunctionWith(db1, args1, sep1);
    var c2 := CsvAggFunctionWith(db2, args2, sep2);
    CsvAggFunctionFirstChar(db1, args1, sep1);
    CsvAggFunctionFirstChar(db2, args2, sep2);
    assert db1 == db2;
    var p := CsvFunction(db1) + "(";
    var t1 := args1 + ", '" + sep1;
    var t2 := args2 + ", '" + sep2;
    assert c1 == (p + t1) + "')";
    assert c2 == (p + t2) + "')";
    CancelSuffix(p + t1, p + t2, "')");
    CancelPrefix(p, t1, t2);
    QuotedTailInjective(args1, sep1, args2, sep2);
  }

  /** What the database's group_concat(x, separator) returns for the values of a group. */
  function GroupConcat(values: seq<string>, separator: string): string {
    Join(separator, values)
  }

  /** The decimal text of each id, as the database renders a bigint column. */
  function DecimalStrings(ids: seq<int>): (r: seq<string>)
    ensures |r| == |ids|
    ensures forall i :: 0 <= i < |ids| ==> r[i] == IntToString(ids[i])
  {
    if ids == [] then [] else [IntToString(ids[0])] + DecimalStrings(ids[1..])
  }

  /** unGroupConcat: one mapped element per comma-separated piece, in order. */
  method UnGroupConcat<X>(groupConcat: string, mapper: string -> X) returns (result: seq<X>)
    ensures |result| == |SplitOnComma(groupConcat)|
    ensures forall i :: 0 <= i < |result| ==> result[i] == mapper(SplitOnComma(groupConcat)[i])
  {
    result := [];
    var split := SplitOnComma(groupConcat);
    for i := 0 to |split|
      invariant |result| == i
      invariant forall k :: 0 <= k < i ==> result[k] == mapper(split[k])
    {
      result := result + [mapper(split[i])];
    }
  }

  /** Long.valueOf over the pieces of a split payload, in order: the first piece it does
      not accept raises NumberFormatException. */
  function ParseEach(pieces: seq<string>): (r: Result<seq<int>>)
    ensures r.Ok? <==> forall i :: 0 <= i < |pieces| ==> IsDecimal(pieces[i])
    ensures r.Ok? ==> |r.value| == |pieces|
    ensures r.Ok? ==> forall i :: 0 <= i < |pieces| ==> r.value[i] == ParseLong(pieces[i])
  {
    if pieces == [] then Ok([])
    else if !IsDecimal(pieces[0]) then Err("NumberFormatException: For input string: \"" + pieces[0] + "\"")
    else
      var rest := ParseEach(pieces[1..]);
      assert forall i :: 1 <= i < |pieces| ==> pieces[i] == pieces[1..][i - 1];
      if rest.Err? then rest
      else Ok([ParseLong(pieces[0])] + rest.value)
  }

  /** What the database returns for group_concat over the ids of a group: SQL NULL (None)
      when the group has no id, as for a cluster without hash hits or tagged events. */
  function GroupConcatPayload(ids: seq<int>): Option<string> {
    if ids == [] then None else Some(GroupConcat(DecimalStrings(ids), ","))
  }

  /** unGroupConcat(rs.getString(column), Long::valueOf) as eventClusterHelper calls it, None
      standing for SQL NULL: a NULL payload is dereferenced by split. */
  function IdsFromPayloadAsWritten(payload: Option<string>): Result<seq<int>> {
    match payload
    case None => Err("NullPointerException")
    case Some(s) => ParseEach(SplitOnComma(s))
  }

  /** A group without ids makes the parse fail: its NULL payload is dereferenced, and an
      empty payload splits into one empty piece that Long.valueOf rejects. */
  lemma NoIdsPayloadFails()
    ensures GroupConcatPayload([]) == None
    ensures IdsFromPayloadAsWritten(GroupConcatPayload([])).Err?
    ensures SplitOnComma("") == [""]
    ensures IdsFromPayloadAsWritten(Some("")).Err?
  {
    assert !IsDecimal("");
    assert ParseEach([""]).Err?;
  }

  /** The payload parse with a NULL or blank payload read as a group without ids. */
  function IdsFromPayload(payload: Option<string>): Result<seq<int>> {
    match payload
    case None => Ok([])
    case Some(s) => if IsBlank(s) then Ok([]) else ParseEach(SplitOnComma(s))
  }

  /** Each decimal text of an id is a comma-free piece that Long.valueOf reads back. */
  lemma DecimalStringsParse(ids: seq<int>)
    ensures forall i :: 0 <= i < |ids| ==> ',' !in DecimalStrings(ids)[i]
    ensures ParseEach(DecimalStrings(ids)) == Ok(ids)
  {
    var parts := DecimalStrings(ids);
    forall i | 0 <= i < |ids| ensures IsDecimal(parts[i]) && ParseLong(parts[i]) == ids[i] {
      IntToStringIsDecimal(ids[i]);
      ParseLongToString(ids[i]);
    }
    var r := ParseEach(parts);
    assert r.Ok?;
    assert r.value == ids;
  }

  /** The payload of a non-empty group is not blank: it starts with a sign or digit. */
  lemma PayloadNotBlank(ids: seq<int>)
    requires ids != []
    ensures !IsBlank(GroupConcat(DecimalStrings(ids), ","))
  {
    var parts := DecimalStrings(ids);
    JoinStartsWithFirst(",", parts);
    assert !IsWhitespace(parts[0][0]);
  }

  /** Parsing the group-concat payload of any list of ids, empty or not, gives back the
      ids in order. */
  lemma IdsFromPayloadRoundTrip(ids: seq<int>)
    ensures IdsFromPayload(GroupConcatPayload(ids)) == Ok(ids)
  {
    if ids != [] {
      var parts := DecimalStrings(ids);
      DecimalStringsParse(ids);
      SplitOnCommaOfJoin(parts);
      PayloadNotBlank(ids);
    }
  }
}
