/** The MySQL query builder: `getUpdateQuery`, the `$$N` placeholder
    rewrite applied to json-sql's output, and the upsert assembled by
    `getInsertUpdateQuery`. */
module QueryBuilder {
  import opened Text
  import opened Patterns

  /** A bound value. JavaScript numbers are modelled as integers. */
  datatype SqlValue = SqlNull | SqlNumber(n: int) | SqlString(s: string) | SqlBool(b: bool)

  /** An object's own enumerable string-keyed properties, in
      `Object.entries` order. */
  type Entries = seq<(string, SqlValue)>

  /** A query with its positional values. */
  datatype Sql = Sql(query: string, values: seq<SqlValue>)

  /** The `updateFields` argument: a plain object, or one of the values
      the invariant turns away. `Primitive` stands for numbers, strings,
      booleans and functions alike. */
  datatype FieldsArg = PlainObject(entries: Entries) | ArrayArg(items: seq<SqlValue>) | NullArg | UndefinedArg | Primitive(v: SqlValue)

  /** The `condition` argument: an object, or a falsy value (`null`, or
      `undefined`, which the default turns into `{}` and so into no
      entries as well). */
  datatype Condition = Where(entries: Entries) | NoCondition

  /** `tiny-invariant` throwing. */
  datatype QueryError = InvariantFailed

  // ---------------------------------------------------------------------
  // The placeholder rewrite: every json-sql placeholder `$$N` becomes `?`

  /** `/\$\$\d+/` matches at `i`. */
  predicate PlaceholderAt(s: string, i: nat) {
    i + 2 < |s| && s[i] == '$' && s[i + 1] == '$' && IsDigit(s[i + 2])
  }

  predicate NoPlaceholder(s: string) {
    forall i: nat :: i < |s| ==> !PlaceholderAt(s, i)
  }

  /** The global replace: a placeholder and all its digits become `?`,
      every other character is copied. */
  function RewritePlaceholders(s: string): (r: string)
    ensures |r| <= |s|
    decreases |s|
  {
    if s == [] then []
    else if PlaceholderAt(s, 0) then "?" + RewritePlaceholders(s[DigitRunEnd(s, 2)..])
    else [s[0]] + RewritePlaceholders(s[1..])
  }

  /** The first character of the rewrite. */
  lemma RewriteHead(s: string)
    requires s != []
    ensures RewritePlaceholders(s) != []
    ensures RewritePlaceholders(s)[0] == if PlaceholderAt(s, 0) then '?' else s[0]
  {
  }

  /** No placeholder is left, not even one formed across a replacement. */
  lemma {:induction false} RewriteLeavesNoPlaceholder(s: string)
    ensures NoPlaceholder(RewritePlaceholders(s))
    decreases |s|
  {
    if s != [] {
      var r := RewritePlaceholders(s);
      if PlaceholderAt(s, 0) {
        var t := s[DigitRunEnd(s, 2)..];
        RewriteLeavesNoPlaceholder(t);
        forall i: nat | i < |r|
          ensures !PlaceholderAt(r, i)
        {
          if i > 0 {
            assert !PlaceholderAt(RewritePlaceholders(t), i - 1);
          }
        }
      } else {
        var t := s[1..];
        RewriteLeavesNoPlaceholder(t);
        var rt := RewritePlaceholders(t);
        forall i: nat | i < |r|
          ensures !PlaceholderAt(r, i)
        {
          if i > 0 {
            assert !PlaceholderAt(rt, i - 1);
          } else if PlaceholderAt(r, 0) {
            // r = s[0] + rt: rt starts with '$', so t starts with '$' and
            // copies it; the digit after it must be t[1], which makes s a
            // placeholder at 0.
            RewriteHead(t);
            assert t[0] == '$' && !PlaceholderAt(t, 0);
            RewriteHead(t[1..]);
          }
        }
      }
    }
  }

  /** A text without placeholders is left as it is. */
  lemma {:induction false} RewriteKeepsPlainText(s: string)
    requires NoPlaceholder(s)
    ensures RewritePlaceholders(s) == s
    decreases |s|
  {
    if s != [] {
      assert !PlaceholderAt(s, 0);
      forall i: nat | i < |s[1..]|
        ensures !PlaceholderAt(s[1..], i)
      {
        assert !PlaceholderAt(s, i + 1);
      }
      RewriteKeepsPlainText(s[1..]);
    }
  }

  /** Rewriting twice is rewriting once. */
  lemma RewriteIsIdempotent(s: string)
    ensures RewritePlaceholders(RewritePlaceholders(s)) == RewritePlaceholders(s)
  {
    RewriteLeavesNoPlaceholder(s);
    RewriteKeepsPlainText(RewritePlaceholders(s));
  }

  /** The rewrite of a text followed by one that starts with `$$` is the
      two rewrites put together: no placeholder of the first text reaches
      into the second, and the scan arrives at the `$$` itself. */
  lemma {:induction false} RewriteSplitsBeforeMarker(a: string, b: string)
    requires |b| >= 2 && b[0] == '$' && b[1] == '$'
    ensures RewritePlaceholders(a + b) == RewritePlaceholders(a) + RewritePlaceholders(b)
    decreases |a|
  {
    if a == [] {
      assert a + b == b;
    } else if PlaceholderAt(a, 0) {
      var j := DigitRunEnd(a, 2);
      DigitRunEndOfConcat(a, b, 2);
      assert PlaceholderAt(a + b, 0);
      assert (a + b)[j..] == a[j..] + b;
      RewriteSplitsBeforeMarker(a[j..], b);
    } else {
      assert !PlaceholderAt(a + b, 0) by {
        if |a| < 3 {
          assert (a + b)[2] == b[2 - |a|];
        }
      }
      assert (a + b)[1..] == a[1..] + b;
      RewriteSplitsBeforeMarker(a[1..], b);
    }
  }

  /** A digit run inside `a` stops before `b` when `b` starts with `$`. */
  lemma {:induction false} DigitRunEndOfConcat(a: string, b: string, i: nat)
    requires i <= |a| && b != [] && b[0] == '$'
    ensures DigitRunEnd(a + b, i) == DigitRunEnd(a, i)
    decreases |a| - i
  {
    if i < |a| && IsDigit(a[i]) {
      DigitRunEndOfConcat(a, b, i + 1);
    }
  }

  /** A placeholder `$$` followed by digits `d`, with no further digit
      after them, becomes a single `?` and the text around it is rewritten
      on its own. With `RewriteKeepsPlainText` this says that every
      placeholder becomes `?` and nothing else changes. */
  lemma RewriteSplices(s1: string, d: string, s2: string)
    requires d != [] && AllDigits(d)
    requires s2 == [] || !IsDigit(s2[0])
    ensures RewritePlaceholders(s1 + "$$" + d + s2) == RewritePlaceholders(s1) + "?" + RewritePlaceholders(s2)
  {
    var b := "$$" + d + s2;
    assert s1 + "$$" + d + s2 == s1 + b;
    RewriteSplitsBeforeMarker(s1, b);
    RewriteAtPlaceholder(d, s2);
    assert RewritePlaceholders(s1) + ("?" + RewritePlaceholders(s2)) == RewritePlaceholders(s1) + "?" + RewritePlaceholders(s2);
  }

  /** A placeholder at the start becomes one `?` before the rest. */
  lemma RewriteAtPlaceholder(d: string, s2: string)
    requires d != [] && AllDigits(d)
    requires s2 == [] || !IsDigit(s2[0])
    ensures RewritePlaceholders("$$" + d + s2) == "?" + RewritePlaceholders(s2)
  {
    var b := "$$" + d + s2;
    assert PlaceholderAt(b, 0) by {
      assert b[2] == d[0];
    }
    PlaceholderDigitsEnd(d, s2);
    assert b[2 + |d|..] == s2;
  }

  lemma PlaceholderDigitsEnd(d: string, s2: string)
    requires d != [] && AllDigits(d)
    requires s2 == [] || !IsDigit(s2[0])
    ensures DigitRunEnd("$$" + d + s2, 2) == 2 + |d|
  {
    var b := "$$" + d + s2;
    assert b[2..2 + |d|] == d;
    if s2 == [] {
      DigitRunToEnd(b, 2);
    } else {
      assert b[2 + |d|] == s2[0];
      DigitRunCovers(b, 2, 2 + |d|);
    }
  }

  lemma {:induction false} DigitRunToEnd(s: string, i: nat)
    requires i <= |s| && AllDigits(s[i..])
    ensures DigitRunEnd(s, i) == |s|
    decreases |s| - i
  {
    if i < |s| {
      assert IsDigit(s[i..][0]);
      assert s[i + 1..] == s[i..][1..];
      DigitRunToEnd(s, i + 1);
    }
  }

  /** A json-sql condition with a numbered placeholder. */
  lemma RewriteExample()
    ensures RewritePlaceholders("a = $$12") == "a = ?"
  {
    assert DigitRunEnd("$$12", 2) == 4;
    assert RewritePlaceholders("$$12") == "?";
    assert RewritePlaceholders(" $$12") == " ?" by {
      assert " $$12"[1..] == "$$12";
    }
    assert RewritePlaceholders("= $$12") == "= ?" by {
      assert "= $$12"[1..] == " $$12";
    }
    assert RewritePlaceholders(" = $$12") == " = ?" by {
      assert " = $$12"[1..] == "= $$12";
    }
    assert "a = $$12"[1..] == " = $$12";
  }

  /** `getSelectQuery`, `getInsertQuery`, `getDeleteQuery`: json-sql's
      output with its placeholders rewritten. */
  function FinishJsonSql(built: Sql): (r: Sql)
    ensures r.values == built.values
    ensures r.query == RewritePlaceholders(built.query)
    ensures NoPlaceholder(r.query)
  {
    RewriteLeavesNoPlaceholder(built.query);
    Sql(RewritePlaceholders(built.query), built.values)
  }

  // ---------------------------------------------------------------------
  // getUpdateQuery

  /** `` `key` = ? `` */
  function Assignment(key: string): string {
    "`" + key + "` = ?"
  }

  /** The clauses the loop pushes, one per entry, in entry order. */
  function Assignments(entries: Entries): (r: seq<string>)
    ensures |r| == |entries|
    ensures forall k :: 0 <= k < |r| ==> r[k] == Assignment(entries[k].0)
  {
    if entries == [] then [] else Assignments(entries[..|entries| - 1]) + [Assignment(entries[|entries| - 1].0)]
  }

  /** The entries' values, in entry order. */
  function ValuesOf(entries: Entries): (r: seq<SqlValue>)
    ensures |r| == |entries|
    ensures forall k :: 0 <= k < |r| ==> r[k] == entries[k].1
  {
    if entries == [] then [] else ValuesOf(entries[..|entries| - 1]) + [entries[|entries| - 1].1]
  }

  function ConditionEntries(condition: Condition): Entries {
    if condition.Where? then condition.entries else []
  }

  /** The where clause: empty without condition entries, else the
      assignments joined by " and ". */
  function WhereClause(conds: Entries): (r: string)
    ensures r == "" <==> conds == []
  {
    if |conds| > 0 then " where " + Join(Assignments(conds), " and ") else ""
  }

  /** The template's start: `update`, the quoted table, a line break, the
      indentation of the template literal's second line, and `set `. */
  function UpdateHead(tableName: string): string {
    "update `" + tableName + "`\n                   set "
  }

  /** The result `getUpdateQuery` returns or the invariant failure. */
  function UpdateQuery(tableName: string, updateFields: FieldsArg, condition: Condition): Result<Sql, QueryError> {
    if !updateFields.PlainObject? then Failure(InvariantFailed)
    else
      var conds := ConditionEntries(condition);
      Success(Sql(UpdateHead(tableName) + Join(Assignments(updateFields.entries), ", ") + WhereClause(conds) + ";",
                  ValuesOf(updateFields.entries) + ValuesOf(conds)))
  }

  /** `getUpdateQuery`: one loop over the fields, one over the condition,
      pushing a clause and a value per entry. */
  method GetUpdateQuery(tableName: string, updateFields: FieldsArg, condition: Condition) returns (r: Result<Sql, QueryError>)
    ensures r == UpdateQuery(tableName, updateFields, condition)
  {
    if !updateFields.PlainObject? {
      return Failure(InvariantFailed);
    }
    var fields := updateFields.entries;
    var setClauses: seq<string> := [];
    var values: seq<SqlValue> := [];
    for i := 0 to |fields|
      invariant setClauses == Assignments(fields[..i])
      invariant values == ValuesOf(fields[..i])
    {
      assert fields[..i + 1][..i] == fields[..i];
      setClauses := setClauses + [Assignment(fields[i].0)];
      values := values + [fields[i].1];
    }
    assert fields[..|fields|] == fields;
    var whereClauses: seq<string> := [];
    var conditionEntries := if condition.Where? then condition.entries else [];
    for i := 0 to |conditionEntries|
      invariant whereClauses == Assignments(conditionEntries[..i])
      invariant values == ValuesOf(fields) + ValuesOf(conditionEntries[..i])
    {
      assert conditionEntries[..i + 1][..i] == conditionEntries[..i];
      whereClauses := whereClauses + [Assignment(conditionEntries[i].0)];
      values := values + [conditionEntries[i].1];
    }
    assert conditionEntries[..|conditionEntries|] == conditionEntries;
    var whereClause := if |whereClauses| > 0 then " where " + Join(whereClauses, " and ") else "";
    var query := "update `" + tableName + "`\n                   set " + Join(setClauses, ", ") + whereClause + ";";
    return Success(Sql(query, values));
  }

  /** The invariant fails exactly for arguments that are not plain
      objects; an empty object passes. */
  lemma UpdateQueryFailsOnlyOnNonObjects(tableName: string, updateFields: FieldsArg, condition: Condition)
    ensures UpdateQuery(tableName, updateFields, condition).Failure? <==> !updateFields.PlainObject?
  {
  }

  /** The values are the field values in entry order followed by the
      condition values in entry order. */
  lemma UpdateQueryValues(tableName: string, fields: Entries, condition: Condition)
    ensures var values := UpdateQuery(tableName, PlainObject(fields), condition).value.values;
            var conds := ConditionEntries(condition);
            && |values| == |fields| + |conds|
            && (forall k :: 0 <= k < |fields| ==> values[k] == fields[k].1)
            && (forall k :: 0 <= k < |conds| ==> values[|fields| + k] == conds[k].1)
  {
    var conds := ConditionEntries(condition);
    var values := UpdateQuery(tableName, PlainObject(fields), condition).value.values;
    var vf, vc := ValuesOf(fields), ValuesOf(conds);
    assert values == vf + vc;
    assert |values| == |fields| + |conds|;
    forall k | 0 <= k < |fields|
      ensures values[k] == fields[k].1
    {
      assert values[k] == vf[k];
    }
    forall k | 0 <= k < |conds|
      ensures values[|fields| + k] == conds[k].1
    {
      assert values[|fields| + k] == vc[k];
    }
  }

  /** The query has a where clause exactly when the condition has
      entries: with none it ends right after the set clauses. */
  lemma UpdateQueryWhere(tableName: string, fields: Entries, condition: Condition)
    ensures var q := UpdateQuery(tableName, PlainObject(fields), condition).value.query;
            var head := UpdateHead(tableName) + Join(Assignments(fields), ", ");
            && StartsWith(q, head)
            && (ConditionEntries(condition) == [] <==> q[|head|..] == ";")
            && (ConditionEntries(condition) != [] ==> StartsWith(q[|head|..], " where `"))
  {
    var conds := ConditionEntries(condition);
    var head := UpdateHead(tableName) + Join(Assignments(fields), ", ");
    var q := UpdateQuery(tableName, PlainObject(fields), condition).value.query;
    assert q == head + (WhereClause(conds) + ";");
    assert q[|head|..] == WhereClause(conds) + ";";
    assert q[..|head|] == head;
    if conds != [] {
      var ws := Assignments(conds);
      JoinStartsWithFirst(ws, " and ");
      assert Join(ws, " and ")[0] == '`';
    }
  }

  /** The number of `?` in a text. */
  function Marks(s: string): nat {
    if s == [] then 0 else (if s[0] == '?' then 1 else 0) + Marks(s[1..])
  }

  lemma {:induction false} NoMarks(s: string)
    requires '?' !in s
    ensures Marks(s) == 0
  {
    if s != [] {
      NoMarks(s[1..]);
    }
  }

  /** Counting `?` distributes over concatenation. */
  lemma {:induction false} MarksOfConcat(a: string, b: string)
    ensures Marks(a + b) == Marks(a) + Marks(b)
  {
    if a == [] {
      assert a + b == b;
    } else {
      assert (a + b)[1..] == a[1..] + b;
      MarksOfConcat(a[1..], b);
    }
  }

  /** Parts with one `?` each, joined by a separator without one, hold as
      many `?` as there are parts. */
  lemma {:induction false} MarksOfJoin(parts: seq<string>, sep: string)
    requires '?' !in sep
    requires forall k :: 0 <= k < |parts| ==> Marks(parts[k]) == 1
    ensures Marks(Join(parts, sep)) == |parts|
  {
    if |parts| > 1 {
      MarksOfJoin(parts[1..], sep);
      MarksOfFrame(parts[0], sep, Join(parts[1..], sep), []);
      assert parts[0] + sep + Join(parts[1..], sep) + [] == parts[0] + sep + Join(parts[1..], sep);
    }
  }

  lemma AssignmentHasOneMark(key: string)
    requires '?' !in key
    ensures Marks(Assignment(key)) == 1
  {
    var mark := "?";
    assert Marks(mark) == 1;
    NoMarks(key);
    MarksOfWrap("`", key, "` = ");
    MarksOfConcat("`" + key + "` = ", mark);
    assert Assignment(key) == "`" + key + "` = " + mark;
  }

  /** Assignments joined by a separator without a `?` hold one `?` per
      entry. */
  lemma ClausesMarks(entries: Entries, sep: string)
    requires '?' !in sep
    requires forall k :: 0 <= k < |entries| ==> '?' !in entries[k].0
    ensures Marks(Join(Assignments(entries), sep)) == |entries|
  {
    var parts := Assignments(entries);
    forall k | 0 <= k < |parts|
      ensures Marks(parts[k]) == 1
    {
      assert parts[k] == Assignment(entries[k].0);
      AssignmentHasOneMark(entries[k].0);
    }
    MarksOfJoin(parts, sep);
  }

  /** The set clauses hold one `?` per field. */
  lemma SetClausesMarks(fields: Entries)
    requires forall k :: 0 <= k < |fields| ==> '?' !in fields[k].0
    ensures Marks(Join(Assignments(fields), ", ")) == |fields|
  {
    ClausesMarks(fields, ", ");
  }

  /** The where clause holds one `?` per condition entry. */
  lemma WhereMarks(conds: Entries)
    requires forall k :: 0 <= k < |conds| ==> '?' !in conds[k].0
    ensures Marks(WhereClause(conds)) == |conds|
  {
    if conds != [] {
      var sep := " and ";
      assert '?' !in sep;
      ClausesMarks(conds, sep);
      WhereKeywordMarks(Join(Assignments(conds), sep));
    }
  }

  lemma WhereKeywordMarks(j: string)
    ensures Marks(" where " + j) == Marks(j)
  {
    MarksOfWrap(" where ", j, []);
    assert " where " + j + [] == " where " + j;
  }

  /** Text put between two pieces without a `?` keeps its count. */
  lemma MarksOfWrap(a: string, b: string, c: string)
    requires '?' !in a && '?' !in c
    ensures Marks(a + b + c) == Marks(b)
  {
    NoMarks(a);
    NoMarks(c);
    MarksOfConcat(a, b);
    MarksOfConcat(a + b, c);
  }

  /** Pieces without a `?` put after two texts add nothing to their count. */
  lemma MarksOfFrame(a: string, b: string, c: string, d: string)
    requires '?' !in b && '?' !in d
    ensures Marks(a + b + c + d) == Marks(a) + Marks(c)
  {
    NoMarks(b);
    NoMarks(d);
    MarksOfConcat(a, b);
    MarksOfConcat(a + b, c);
    MarksOfConcat(a + b + c, d);
  }

  /** The template adds no `?` of its own. */
  lemma TemplateMarks(tableName: string, setPart: string, where: string)
    requires '?' !in tableName
    ensures Marks(UpdateHead(tableName) + setPart + where + ";") == Marks(setPart) + Marks(where)
  {
    HeadMarks(tableName);
    MarksOfConcat(UpdateHead(tableName) + setPart, where);
    MarksOfFrame([], UpdateHead(tableName), setPart + where, ";");
    assert [] + UpdateHead(tableName) + (setPart + where) + ";" == UpdateHead(tableName) + setPart + where + ";";
    MarksOfConcat(setPart, where);
  }

  lemma HeadMarks(tableName: string)
    requires '?' !in tableName
    ensures Marks(UpdateHead(tableName)) == 0
  {
    MarksOfWrap("update `", tableName, "`\n                   set ");
    NoMarks(tableName);
  }

  /** When neither the table name nor a key holds a `?`, the query has
      exactly one `?` per value, so the placeholders and the values line
      up. */
  lemma PlaceholdersMatchValues(tableName: string, fields: Entries, condition: Condition)
    requires '?' !in tableName
    requires forall k :: 0 <= k < |fields| ==> '?' !in fields[k].0
    requires forall k :: 0 <= k < |ConditionEntries(condition)| ==> '?' !in ConditionEntries(condition)[k].0
    ensures var r := UpdateQuery(tableName, PlainObject(fields), condition).value;
            Marks(r.query) == |r.values|
  {
    var conds := ConditionEntries(condition);
    var setPart, where := Join(Assignments(fields), ", "), WhereClause(conds);
    SetClausesMarks(fields);
    WhereMarks(conds);
    TemplateMarks(tableName, setPart, where);
    UpdateQueryValues(tableName, fields, condition);
  }

  lemma JoinStartsWithFirst(parts: seq<string>, sep: string)
    requires parts != []
    ensures StartsWith(Join(parts, sep), parts[0])
  {
  }

  // ---------------------------------------------------------------------
  // getInsertUpdateQuery

  predicate HasKey(entries: Entries, key: string) {
    exists i | 0 <= i < |entries| :: entries[i].0 == key
  }

  /** The value of the first entry with key `key`. */
  function Lookup(entries: Entries, key: string): Option<SqlValue> {
    if entries == [] then None
    else if entries[0].0 == key then Some(entries[0].1)
    else Lookup(entries[1..], key)
  }

  /** The entries of `b` whose key `a` lacks, in `b`'s order. */
  function Additions(a: Entries, b: Entries): (r: Entries)
    ensures |r| <= |b|
  {
    if b == [] then []
    else
      var rest := Additions(a, b[..|b| - 1]);
      if HasKey(a, b[|b| - 1].0) then rest else rest + [b[|b| - 1]]
  }

  /** The index in `b` of each entry of `Additions(a, b)`. */
  function AdditionOrigins(a: Entries, b: Entries): seq<nat> {
    if b == [] then []
    else
      var rest := AdditionOrigins(a, b[..|b| - 1]);
      if HasKey(a, b[|b| - 1].0) then rest else rest + [|b| - 1]
  }

  /** The additions are exactly the entries of `b` whose key `a` lacks, in
      `b`'s order: each comes from such an entry, at strictly increasing
      indices, and every such entry is among them. */
  lemma {:induction false} AdditionsAreTheNewEntries(a: Entries, b: Entries)
    ensures |AdditionOrigins(a, b)| == |Additions(a, b)|
    ensures forall k :: 0 <= k < |AdditionOrigins(a, b)| ==>
              AdditionOrigins(a, b)[k] < |b| && !HasKey(a, b[AdditionOrigins(a, b)[k]].0)
              && Additions(a, b)[k] == b[AdditionOrigins(a, b)[k]]
    ensures forall k, k' :: 0 <= k < k' < |AdditionOrigins(a, b)| ==> AdditionOrigins(a, b)[k] < AdditionOrigins(a, b)[k']
    ensures forall i :: 0 <= i < |b| && !HasKey(a, b[i].0) ==> i in AdditionOrigins(a, b)
  {
    if b != [] {
      var init := b[..|b| - 1];
      AdditionsAreTheNewEntries(a, init);
      var prev, prevOrigins := Additions(a, init), AdditionOrigins(a, init);
      assert forall i :: 0 <= i < |init| ==> init[i] == b[i];
      if HasKey(a, b[|b| - 1].0) {
        assert Additions(a, b) == prev;
        assert AdditionOrigins(a, b) == prevOrigins;
      } else {
        assert Additions(a, b) == prev + [b[|b| - 1]];
        assert AdditionOrigins(a, b) == prevOrigins + [|b| - 1];
      }
    }
  }

  /** The spread `{ ...a, ...b }`: `a`'s keys keep their places and take
      `b`'s value where `b` has one; `b`'s other keys follow in order. */
  function Merge(a: Entries, b: Entries): (r: Entries)
    ensures |r| == |a| + |Additions(a, b)|
    ensures forall k :: 0 <= k < |a| ==> r[k].0 == a[k].0
    ensures r[|a|..] == Additions(a, b)
  {
    var updated := seq(|a|, k requires 0 <= k < |a| =>
      (a[k].0, if Lookup(b, a[k].0).Some? then Lookup(b, a[k].0).value else a[k].1));
    updated + Additions(a, b)
  }

  /** A lookup finds a value exactly when the key is present. */
  lemma {:induction false} LookupFindsPresentKeys(e: Entries, key: string)
    ensures Lookup(e, key).Some? <==> HasKey(e, key)
  {
    if e != [] {
      LookupFindsPresentKeys(e[1..], key);
      if HasKey(e, key) && e[0].0 != key {
        var i :| 0 <= i < |e| && e[i].0 == key;
        assert e[1..][i - 1].0 == key;
      }
      if HasKey(e[1..], key) {
        var i :| 0 <= i < |e[1..]| && e[1..][i].0 == key;
        assert e[i + 1].0 == key;
      }
    }
  }

  /** The later spread wins: the merged value of a key is `b`'s when `b`
      has the key and `a`'s otherwise. */
  lemma MergeLookup(a: Entries, b: Entries, key: string)
    ensures Lookup(Merge(a, b), key) == if Lookup(b, key).Some? then Lookup(b, key) else Lookup(a, key)
  {
    var m := Merge(a, b);
    if HasKey(a, key) {
      var i := FirstKeyIndex(a, key);
      LookupAt(a, i, key);
      LookupAt(m, i, key);
    } else {
      LookupFindsPresentKeys(a, key);
      assert forall j :: 0 <= j < |a| ==> m[j].0 != key;
      LookupOfPrefixFree(m, |a|, key);
      assert m[|a|..] == Additions(a, b);
      AdditionsLookup(a, b, key);
    }
  }

  /** The spread has a key exactly when either side has it. */
  lemma MergeHasKey(a: Entries, b: Entries, key: string)
    ensures HasKey(Merge(a, b), key) <==> HasKey(a, key) || HasKey(b, key)
  {
    MergeLookup(a, b, key);
    LookupFindsPresentKeys(Merge(a, b), key);
    LookupFindsPresentKeys(a, key);
    LookupFindsPresentKeys(b, key);
  }

  lemma {:induction false} LookupAt(e: Entries, i: nat, key: string)
    requires i < |e| && e[i].0 == key && forall j :: 0 <= j < i ==> e[j].0 != key
    ensures Lookup(e, key) == Some(e[i].1)
  {
    if i > 0 {
      LookupAt(e[1..], i - 1, key);
    }
  }

  lemma FirstKeyIndex(e: Entries, key: string) returns (i: nat)
    requires HasKey(e, key)
    ensures i < |e| && e[i].0 == key && forall j :: 0 <= j < i ==> e[j].0 != key
  {
    var n :| 0 <= n < |e| && e[n].0 == key;
    i := 0;
    while e[i].0 != key
      invariant i <= n && forall j :: 0 <= j < i ==> e[j].0 != key
      decreases n - i
    {
      i := i + 1;
    }
  }

  /** Looking up past a prefix that lacks the key. */
  lemma {:induction false} LookupOfPrefixFree(e: Entries, n: nat, key: string)
    requires n <= |e| && forall j :: 0 <= j < n ==> e[j].0 != key
    ensures Lookup(e, key) == Lookup(e[n..], key)
  {
    if n > 0 {
      LookupOfPrefixFree(e[1..], n - 1, key);
      assert e[1..][n - 1..] == e[n..];
    }
  }

  lemma {:induction false} AdditionsLookup(a: Entries, b: Entries, key: string)
    requires !HasKey(a, key)
    ensures Lookup(Additions(a, b), key) == Lookup(b, key)
  {
    if b != [] {
      var init, last := b[..|b| - 1], b[|b| - 1];
      assert b == init + [last];
      AdditionsLookup(a, init, key);
      LookupAppend(init, last, key);
      if !HasKey(a, last.0) {
        LookupAppend(Additions(a, init), last, key);
      } else {
        assert last.0 != key;
      }
    }
  }

  lemma {:induction false} LookupAppend(e: Entries, x: (string, SqlValue), key: string)
    ensures Lookup(e + [x], key) == if Lookup(e, key).Some? then Lookup(e, key) else Lookup([x], key)
  {
    if e == [] {
      assert e + [x] == [x];
    } else {
      assert (e + [x])[1..] == e[1..] + [x];
      if e[0].0 != key {
        LookupAppend(e[1..], x, key);
      }
    }
  }

  /** The last character dropped, and an empty text left empty (a
      negative end index counts as zero). */
  function DropLast(s: string): (r: string)
    ensures |s| > 0 ==> s == r + [s[|s| - 1]]
    ensures |s| == 0 ==> r == ""
  {
    if |s| == 0 then "" else s[..|s| - 1]
  }

  /** The end of a match at the start of `q` of the upsert's pattern:
      `update`, spaces, the quoted table name read literally, spaces, `set`
      and any spaces, letters in either case. Each `\s` run is maximal, as the
      greedy loop leaves it: the character that follows a run is never a
      space. */
  function SetPrefixEnd(q: string, tableName: string): (r: Option<nat>)
    ensures r.Some? ==> r.value <= |q|
  {
    if !StartsWithIgnoreCase(q, "update") then None
    else
      var a := SpacesFrom(q, 6);
      var quoted := "`" + tableName + "`";
      if a == 6 || !StartsWithIgnoreCase(q[a..], quoted) then None
      else
        var b := a + |quoted|;
        var c := SpacesFrom(q, b);
        if c == b || !StartsWithIgnoreCase(q[c..], "set") then None
        else Some(SpacesFrom(q, c + 3))
  }

  lemma {:induction false} SpacesRun(s: string, from: nat, to: nat)
    requires from <= to <= |s|
    requires forall k :: from <= k < to ==> IsSpace(s[k])
    requires to == |s| || !IsSpace(s[to])
    ensures SpacesFrom(s, from) == to
    decreases |s| - from
  {
    if from < to {
      SpacesRun(s, from + 1, to);
    }
  }

  lemma SameTextIgnoringCase(s: string, prefix: string)
    requires StartsWith(s, prefix)
    ensures StartsWithIgnoreCase(s, prefix)
  {
    forall k | 0 <= k < |prefix|
      ensures UpperAscii(s[k]) == UpperAscii(prefix[k])
    {
      assert s[k] == s[..|prefix|][k];
    }
  }

  /** The update query's head is exactly what the pattern removes when
      what follows it does not start with a space. */
  lemma UpdateHeadMatches(tableName: string, rest: string)
    requires rest == [] || !IsSpace(rest[0])
    ensures SetPrefixEnd(UpdateHead(tableName) + rest, tableName) == Some(|UpdateHead(tableName)|)
  {
    var q := UpdateHead(tableName) + rest;
    var quoted := "`" + tableName + "`";
    var b := 7 + |quoted|;
    var c := b + 20;
    HeadLayout(tableName, rest);
    SameTextIgnoringCase(q, "update");
    SpacesRun(q, 6, 7);
    SameTextIgnoringCase(q[7..], quoted);
    SpacesRun(q, b, c);
    SameTextIgnoringCase(q[c..], "set");
    SpacesRun(q, c + 3, c + 4);
  }

  /** Where each part of the update's head lies. */
  lemma HeadLayout(tableName: string, rest: string)
    ensures var q := UpdateHead(tableName) + rest;
            var quoted := "`" + tableName + "`";
            var b := 7 + |quoted|;
            && |UpdateHead(tableName)| == b + 24
            && StartsWith(q, "update") && q[6] == ' ' && !IsSpace(q[7])
            && StartsWith(q[7..], quoted)
            && (forall k :: b <= k < b + 20 ==> IsSpace(q[k])) && !IsSpace(q[b + 20])
            && StartsWith(q[b + 20..], "set") && q[b + 23] == ' '
            && q[b + 24..] == rest
  {
    var q := UpdateHead(tableName) + rest;
    var quoted := "`" + tableName + "`";
    var indent := "\n                   ";
    var afterName := indent + ("set " + rest);
    HeadSplit(tableName, rest);
    assert q[..6] == "update";
    assert q[7..] == quoted + afterName;
    assert q[7..][..|quoted|] == quoted;
    var b := 7 + |quoted|;
    assert q[b..] == afterName;
    forall k | b <= k < b + 20
      ensures IsSpace(q[k])
    {
      assert q[k] == afterName[k - b] == indent[k - b];
    }
    assert q[b + 20..] == "set " + rest;
    assert q[b + 20..][..3] == "set";
  }

  lemma HeadSplit(tableName: string, rest: string)
    ensures UpdateHead(tableName) + rest
         == "update " + (("`" + tableName + "`") + ("\n                   " + ("set " + rest)))
  {
    assert "update `" == "update " + "`";
    assert "`\n                   set " == "`" + "\n                   " + "set ";
  }

  /** With no condition, the pattern takes off exactly the update's head
      and leaves the set clauses and the closing semicolon. */
  lemma UpsertTail(tableName: string, fields: Entries)
    ensures var q := UpdateQuery(tableName, PlainObject(fields), Where([])).value.query;
            var n := SetPrefixEnd(q, tableName);
            n.Some? && q[n.value..] == Join(Assignments(fields), ", ") + ";"
  {
    var setPart := Join(Assignments(fields), ", ");
    var q := UpdateQuery(tableName, PlainObject(fields), Where([])).value.query;
    assert q == UpdateHead(tableName) + (setPart + ";");
    if fields != [] {
      JoinStartsWithFirst(Assignments(fields), ", ");
      assert (setPart + ";")[0] == '`';
    }
    UpdateHeadMatches(tableName, setPart + ";");
  }

  lemma UpsertKeywords(start: string, tail: string)
    ensures start + " ON DUPLICATE KEY " + "UPDATE " + tail == start + " ON DUPLICATE KEY UPDATE " + tail
  {
    assert " ON DUPLICATE KEY " + "UPDATE " == " ON DUPLICATE KEY UPDATE ";
  }

  /** The query `getInsertUpdateQuery` returns: the insert without its
      final character, then the update's set clauses. */
  function UpsertQuery(insertQuery: string, fields: Entries): string {
    DropLast(insertQuery) + " ON DUPLICATE KEY UPDATE " + Join(Assignments(fields), ", ") + ";"
  }

  /** `getInsertUpdateQuery`, with json-sql's insert builder as `build`:
      the insert built for `{ ...insertFields, ...insertPlus }`, its final
      character dropped, then `ON DUPLICATE KEY UPDATE` and the set clauses
      of the update for `{ ...insertFields, ...updatePlus }` with no
      condition; the values are the insert's followed by the update's. */
  method GetInsertUpdateQuery(tableName: string, insertFields: Entries, updatePlus: Entries, insertPlus: Entries,
                              build: (string, Entries) -> Sql)
    returns (r: Sql)
    ensures var insert := FinishJsonSql(build(tableName, Merge(insertFields, insertPlus)));
            var update := UpdateQuery(tableName, PlainObject(Merge(insertFields, updatePlus)), Where([]));
            && update.Success?
            && r.values == insert.values + update.value.values
            && r.query == UpsertQuery(insert.query, Merge(insertFields, updatePlus))
  {
    var insert := FinishJsonSql(build(tableName, Merge(insertFields, insertPlus)));
    var query := DropLast(insert.query);
    query := query + " ON DUPLICATE KEY ";
    var fields := Merge(insertFields, updatePlus);
    var update := GetUpdateQuery(tableName, PlainObject(fields), Where([]));
    UpsertTail(tableName, fields);
    var n := SetPrefixEnd(update.value.query, tableName);
    ghost var tail := update.value.query[n.value..];
    assert tail == Join(Assignments(fields), ", ") + ";";
    query := query + "UPDATE " + update.value.query[n.value..];
    UpsertKeywords(DropLast(insert.query), tail);
    r := Sql(query, insert.values + update.value.values);
  }

  /** The upsert's placeholders line up with its values: the update part
      adds one `?` per merged field when no key holds one. */
  lemma UpsertMarks(insertQuery: string, fields: Entries)
    requires forall k :: 0 <= k < |fields| ==> '?' !in fields[k].0
    ensures Marks(UpsertQuery(insertQuery, fields)) == Marks(DropLast(insertQuery)) + |fields|
  {
    SetClausesMarks(fields);
    KeywordsAddNoMarks(DropLast(insertQuery), Join(Assignments(fields), ", "));
  }

  lemma KeywordsAddNoMarks(start: string, setPart: string)
    ensures Marks(start + " ON DUPLICATE KEY UPDATE " + setPart + ";") == Marks(start) + Marks(setPart)
  {
    MarksOfFrame(start, " ON DUPLICATE KEY UPDATE ", setPart, ";");
  }
}
