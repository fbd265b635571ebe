/**
 * The statement composer: INSERT, SELECT, UPDATE and DELETE text for a
 * record type, built from its metadata alone.
 */
module Helper {
  import opened Text
  import opened Items

  /** The system columns: Id and ETag, then CreatedAt and UpdatedAt for a time-stamped type. */
  function NonCustomColumnNames(m: Metadata): (names: seq<string>)
    ensures !m.timeStamped ==> names == ["Id", "ETag"]
    ensures m.timeStamped ==> names == ["Id", "ETag", "CreatedAt", "UpdatedAt"]
  {
    ["Id", "ETag"] + (if m.timeStamped then ["CreatedAt", "UpdatedAt"] else [])
  }

  /** Every column: the system columns followed by the type's own, in declaration order. */
  function AllColumnNames(m: Metadata): (names: seq<string>)
    ensures |names| == |NonCustomColumnNames(m)| + |m.customColumnNames| >= 2
    ensures names[..|NonCustomColumnNames(m)|] == NonCustomColumnNames(m)
    ensures names[|NonCustomColumnNames(m)|..] == m.customColumnNames
    ensures names[0] == "Id" && names[1] == "ETag"
  {
    NonCustomColumnNames(m) + m.customColumnNames
  }

  function Bracketed(name: string): string {
    "[" + name + "]"
  }

  function Parameter(name: string): string {
    "@" + name
  }

  function Assignment(name: string): string {
    "[" + name + "]=@" + name
  }

  function ColumnEntries(m: Metadata): seq<string> {
    var names := AllColumnNames(m);
    seq(|names|, i requires 0 <= i < |names| => Bracketed(names[i]))
  }

  function ArgumentEntries(m: Metadata): seq<string> {
    var names := AllColumnNames(m);
    seq(|names|, i requires 0 <= i < |names| => Parameter(names[i]))
  }

  function UpdateEntries(m: Metadata): seq<string> {
    var names := AllColumnNames(m);
    seq(|names|, i requires 0 <= i < |names| => Assignment(names[i]))
  }

  /** `[Id], [ETag], ...` */
  function ColumnList(m: Metadata): (l: string)
    ensures |l| >= 12 && l[..12] == "[Id], [ETag]"
  {
    JoinStartsWithTwo(", ", ColumnEntries(m));
    Join(", ", ColumnEntries(m))
  }

  /** `@Id, @ETag, ...` */
  function ArgumentList(m: Metadata): (l: string)
    ensures |l| >= 10 && l[..10] == "@Id, @ETag"
  {
    JoinStartsWithTwo(", ", ArgumentEntries(m));
    Join(", ", ArgumentEntries(m))
  }

  /** `[Id]=@Id, [ETag]=@ETag, ...` */
  function UpdateList(m: Metadata): (l: string)
    ensures |l| >= 22 && l[..22] == "[Id]=@Id, [ETag]=@ETag"
  {
    JoinStartsWithTwo(", ", UpdateEntries(m));
    Join(", ", UpdateEntries(m))
  }

  /** The INSERT: every column named, and bound to the parameter of the same name. */
  function Create(m: Metadata): (s: string)
    ensures |s| > 17 && s[..17] == "INSERT INTO dbo.[" && s[|s| - 1] == ')'
  {
    "INSERT INTO dbo.[" + m.tableName + "] (" + ColumnList(m) + ") values (" + ArgumentList(m) + ")"
  }

  /** The SELECT of every column, filtered by `where`. */
  function Read(m: Metadata, where: string): (s: string)
    ensures |s| >= 14 + |where| && s[..7] == "SELECT " && s[|s| - |where| - 7..] == " WHERE " + where
  {
    var head, tail := "SELECT " + ColumnList(m) + " FROM [" + m.tableName + "]", " WHERE " + where;
    assert (head + tail)[|head|..] == tail;
    head + tail
  }

  /** The SELECT of every column, filtered by `where` and sorted by `orderBy`. */
  function ReadOrdered(m: Metadata, where: string, orderBy: string): (s: string)
    ensures |s| >= 17 + |orderBy| && s[..7] == "SELECT " && s[|s| - |orderBy| - 10..] == " ORDER BY " + orderBy
  {
    var head, tail := "SELECT " + ColumnList(m) + " FROM [" + m.tableName + "] WHERE " + where, " ORDER BY " + orderBy;
    assert (head + tail)[|head|..] == tail;
    head + tail
  }

  /** The text of an UPDATE whose ETag comparison is written `op`, up to the old ETag. */
  function UpdateHead(m: Metadata, op: string): string {
    "UPDATE [" + m.tableName + "] SET " + UpdateList(m) + " WHERE Id = @Id AND ETag " + op + " '"
  }

  /**
   * The UPDATE of every column, guarded by the Id and the old ETag, with
   * the ETag comparison written `op`.
   */
  function UpdateComparing(m: Metadata, op: string, oldEtag: string): string {
    "UPDATE [" + m.tableName + "] SET " + UpdateList(m) + " WHERE Id = @Id AND ETag " + op + " '" + oldEtag + "'"
  }

  /** Update as written: the ETag is compared with `==`, which is not a T-SQL operator. */
  function Update(m: Metadata, oldEtag: string): (s: string)
    ensures s == UpdateHead(m, "==") + oldEtag + "'"
  {
    UpdateComparing(m, "==", oldEtag)
  }

  /** The UPDATE Update is evidently meant to send: the ETag compared with `=`. */
  function UpdateCorrected(m: Metadata, oldEtag: string): (s: string)
    ensures s == UpdateHead(m, "=") + oldEtag + "'"
  {
    UpdateComparing(m, "=", oldEtag)
  }

  /** The DELETE of the row with the Id parameter. */
  function Delete(m: Metadata): (s: string)
    ensures |s| >= 28 && s[..13] == "DELETE FROM [" && s[|s| - 15..] == " WHERE Id = @Id"
  {
    var head, tail := "DELETE FROM [" + m.tableName + "]", " WHERE Id = @Id";
    assert (head + tail)[|head|..] == tail;
    head + tail
  }

  /** No column name of the type contains a comma. */
  predicate PlainColumnNames(m: Metadata) {
    forall i :: 0 <= i < |m.customColumnNames| ==> ',' !in m.customColumnNames[i]
  }

  lemma AllColumnNamesPlain(m: Metadata)
    requires PlainColumnNames(m)
    ensures forall i :: 0 <= i < |AllColumnNames(m)| ==> ',' !in AllColumnNames(m)[i]
  {
    var names := AllColumnNames(m);
    var k := |NonCustomColumnNames(m)|;
    forall i | 0 <= i < |names| ensures ',' !in names[i] {
      if i >= k {
        assert names[i] == m.customColumnNames[i - k];
      }
    }
  }

  /**
   * The column, argument and update lists have one entry per column, in the
   * same order: entry i of each names column i, as `[n]`, `@n` and `[n]=@n`.
   */
  lemma ColumnListsAlign(m: Metadata)
    requires PlainColumnNames(m)
    ensures var names := AllColumnNames(m);
      && Split(ColumnList(m)) == ColumnEntries(m)
      && Split(ArgumentList(m)) == ArgumentEntries(m)
      && Split(UpdateList(m)) == UpdateEntries(m)
      && |ColumnEntries(m)| == |ArgumentEntries(m)| == |UpdateEntries(m)| == |names|
      && forall i :: 0 <= i < |names| ==>
           && ColumnEntries(m)[i] == "[" + names[i] + "]"
           && ArgumentEntries(m)[i] == "@" + names[i]
           && UpdateEntries(m)[i] == ColumnEntries(m)[i] + "=" + ArgumentEntries(m)[i]
  {
    var names := AllColumnNames(m);
    AllColumnNamesPlain(m);
    var cs, args, us := ColumnEntries(m), ArgumentEntries(m), UpdateEntries(m);
    forall i | 0 <= i < |names|
      ensures ',' !in cs[i] && ',' !in args[i] && ',' !in us[i]
      ensures us[i] == cs[i] + "=" + args[i]
    {
      assert cs[i] == "[" + names[i] + "]";
      assert args[i] == "@" + names[i];
      assert us[i] == "[" + names[i] + "]=@" + names[i];
      assert "[" + names[i] + "]=@" + names[i] == ("[" + names[i] + "]") + "=" + ("@" + names[i]);
    }
    SplitJoin(cs);
    SplitJoin(args);
    SplitJoin(us);
  }

  /**
   * INSERT names every column and binds each to the parameter of the same
   * name: the text between the parentheses splits into the column entries,
   * the text between the second pair into the argument entries.
   */
  lemma CreateBindsEveryColumn(m: Metadata)
    requires PlainColumnNames(m)
    ensures var s, head, cols, args := Create(m), "INSERT INTO dbo.[" + m.tableName + "] (", ColumnList(m), ArgumentList(m);
      && |s| == |head| + |cols| + 10 + |args| + 1
      && s[..|head|] == head
      && Split(s[|head|..|head| + |cols|]) == ColumnEntries(m)
      && s[|head| + |cols|..|head| + |cols| + 10] == ") values ("
      && Split(s[|head| + |cols| + 10..|s| - 1]) == ArgumentEntries(m)
      && s[|s| - 1] == ')'
  {
    var s, head, cols, args := Create(m), "INSERT INTO dbo.[" + m.tableName + "] (", ColumnList(m), ArgumentList(m);
    assert s == head + cols + ") values (" + args + ")";
    assert s[|head|..|head| + |cols|] == cols;
    assert s[|head| + |cols|..|head| + |cols| + 10] == ") values (";
    assert s[|head| + |cols| + 10..|s| - 1] == args;
    ColumnListsAlign(m);
  }

  /** The ordered SELECT is the plain SELECT followed by the ORDER BY clause. */
  lemma ReadOrderedExtendsRead(m: Metadata, where: string, orderBy: string)
    ensures ReadOrdered(m, where, orderBy) == Read(m, where) + " ORDER BY " + orderBy
  {
  }

  /**
   * UPDATE embeds the old ETag verbatim between single quotes at its end,
   * whichever operator compares it, and so the old ETag can be read back
   * from the statement.
   */
  lemma UpdateEmbedsOldETag(m: Metadata, op: string, oldEtag: string, otherEtag: string)
    ensures var s := UpdateComparing(m, op, oldEtag);
      && s == UpdateHead(m, op) + oldEtag + "'"
      && s[|s| - |oldEtag| - 2] == '\'' && s[|s| - 1] == '\''
      && s[|s| - |oldEtag| - 1..|s| - 1] == oldEtag
    ensures UpdateComparing(m, op, oldEtag) == UpdateComparing(m, op, otherEtag) <==> oldEtag == otherEtag
  {
    var s := UpdateComparing(m, op, oldEtag);
    var h := UpdateHead(m, op);
    assert s == h + oldEtag + "'";
    assert s[|s| - |oldEtag| - 1..|s| - 1] == oldEtag;
    if UpdateComparing(m, op, oldEtag) == UpdateComparing(m, op, otherEtag) {
      var t := UpdateComparing(m, op, otherEtag);
      assert t == h + otherEtag + "'";
      assert |otherEtag| == |oldEtag|;
      assert t[|h|..|t| - 1] == otherEtag;
      assert s[|h|..|s| - 1] == oldEtag;
    }
  }

  /** DELETE filters on the Id parameter alone: its text depends on the table name and on nothing else. */
  lemma DeleteFiltersOnIdOnly(m: Metadata, n: Metadata)
    ensures Delete(m) == Delete(n) <==> m.tableName == n.tableName
  {
    if Delete(m) == Delete(n) {
      var s := Delete(m);
      assert s == "DELETE FROM [" + m.tableName + "] WHERE Id = @Id";
      assert Delete(n) == "DELETE FROM [" + n.tableName + "] WHERE Id = @Id";
      assert s[13..|s| - 16] == m.tableName;
      assert Delete(n)[13..|s| - 16] == n.tableName;
    }
  }
}
