/**
 * The older article store (repository/news.js): the `news` table with the
 * expection, ranking, url and image columns and no match-all value: the name
 * and language filters always compare for equality. Each SELECT is a function
 * of the table; the UPDATE, INSERT and DELETE statements are methods of
 * NewsTable, which holds the table.
 */
module LegacyNews {
  import opened Wrappers
  import opened Calendar
  import Sql

  /** A nullable text column. */
  type Text = Option<string>

  /** The columns `getArticleDetailsById` selects, which are also the ones the `update*` operations write. */
  datatype Details = Details(summary: Text, keyword: Text, classification: Text, expection: Text, memo: Text)

  /** One row of `news`. */
  datatype Article = Article(
    id: int, name: string, title: string, date: DateTime, language: string, details: Details,
    ranking: Option<int>, url: Text, image: Text)

  /** The nine values `addArticle` inserts; the id is generated by the table. */
  datatype NewArticle = NewArticle(
    name: string, title: string, date: DateTime, language: string,
    summary: Text, memo: Text, ranking: Option<int>, url: Text, image: Text)

  /** The columns an `update*` operation can set. */
  datatype Column = Summary | Keyword | Classification | Expection | Memo

  function Get(d: Details, c: Column): Text {
    match c
    case Summary => d.summary
    case Keyword => d.keyword
    case Classification => d.classification
    case Expection => d.expection
    case Memo => d.memo
  }

  /** `SET <c> = v` on one row: column `c` becomes `v`, every other column keeps its value. */
  function Set(d: Details, c: Column, v: Text): (r: Details)
    ensures Get(r, c) == v
    ensures forall other :: other != c ==> Get(r, other) == Get(d, other)
  {
    match c
    case Summary => d.(summary := v)
    case Keyword => d.(keyword := v)
    case Classification => d.(classification := v)
    case Expection => d.(expection := v)
    case Memo => d.(memo := v)
  }

  function IdOf(a: Article): int { a.id }

  function DateOf(a: Article): DateTime { a.date }

  /** The primary-key invariant: no two rows share an id. */
  ghost predicate UniqueIds(table: seq<Article>) {
    Sql.UniqueKeys(table, IdOf)
  }

  ghost predicate HasId(table: seq<Article>, id: int) {
    Sql.HasKey(table, IdOf, id)
  }

  // The WHERE conditions of the statements, one named function each so that
  // every use denotes the same condition.

  /** `WHERE DATE(date) = ?` with a date literal as the parameter. */
  function OnDate(literal: string): Article -> bool {
    (a: Article) => ParseDate(literal) == Some(a.date.date)
  }

  /** `WHERE title LIKE '%keyword%'`. */
  function TitleContains(keyword: string): Article -> bool {
    (a: Article) => Sql.Contains(a.title, keyword)
  }

  /** `WHERE name = ? AND DATE(date) BETWEEN ? AND ?`. */
  function NameInRange(name: string, startDate: Date, endDate: Date): Article -> bool {
    (a: Article) => a.name == name && Between(a.date.date, startDate, endDate)
  }

  /** `WHERE language = ? AND DATE(date) BETWEEN ? AND ?`. */
  function LanguageInRange(language: string, startDate: Date, endDate: Date): Article -> bool {
    (a: Article) => a.language == language && Between(a.date.date, startDate, endDate)
  }

  /** `WHERE id = ?`. */
  function WithId(id: int): Article -> bool {
    (a: Article) => a.id == id
  }

  /** The rows a `DELETE ... WHERE id = ?` keeps. */
  function WithoutId(id: int): Article -> bool {
    (a: Article) => a.id != id
  }

  /** `getTodayNews`: the rows dated on the clock's calendar day, at any time of that day, in storage order. */
  function GetTodayNews(table: seq<Article>, clock: Clock): (r: seq<Article>)
    requires ValidClock(clock)
    ensures forall a :: a in r <==> a in table && a.date.date == ClockDate(clock)
    ensures forall a: Article :: a.date.date == ClockDate(clock) ==> multiset(r)[a] == multiset(table)[a]
    ensures multiset(r) <= multiset(table)
  {
    TodayStringDenotesClockDate(clock);
    Sql.Where(table, OnDate(TodayString(clock)))
  }

  /** `searchByTitle`: the rows whose title contains `keyword`, newest first. */
  function SearchByTitle(table: seq<Article>, keyword: string): (r: seq<Article>)
    ensures forall a :: a in r <==> a in table && Sql.Contains(a.title, keyword)
    ensures forall a: Article :: Sql.Contains(a.title, keyword) ==> multiset(r)[a] == multiset(table)[a]
    ensures multiset(r) <= multiset(table)
    ensures Sql.SortedByDateDesc(r, DateOf)
  {
    Sql.WhereOrderByDateDesc(table, TitleContains(keyword), DateOf)
  }

  /**
   * `getArticlesByNameAndDate`: the rows with exactly that name dated within
   * `[startDate, endDate]`, newest first. `'all'` is an ordinary name here.
   */
  function GetArticlesByNameAndDate(table: seq<Article>, name: string, startDate: Date, endDate: Date): (r: seq<Article>)
    ensures forall a :: a in r <==> a in table && a.name == name && Between(a.date.date, startDate, endDate)
    ensures forall a: Article :: a.name == name && Between(a.date.date, startDate, endDate) ==> multiset(r)[a] == multiset(table)[a]
    ensures multiset(r) <= multiset(table)
    ensures Sql.SortedByDateDesc(r, DateOf)
  {
    Sql.WhereOrderByDateDesc(table, NameInRange(name, startDate, endDate), DateOf)
  }

  /** `getArticlesByLanguageAndDate`: the rows with exactly that language dated within `[startDate, endDate]`, newest first. */
  function GetArticlesByLanguageAndDate(table: seq<Article>, language: string, startDate: Date, endDate: Date): (r: seq<Article>)
    ensures forall a :: a in r <==> a in table && a.language == language && Between(a.date.date, startDate, endDate)
    ensures forall a: Article :: a.language == language && Between(a.date.date, startDate, endDate) ==> multiset(r)[a] == multiset(table)[a]
    ensures multiset(r) <= multiset(table)
    ensures Sql.SortedByDateDesc(r, DateOf)
  {
    Sql.WhereOrderByDateDesc(table, LanguageInRange(language, startDate, endDate), DateOf)
  }

  /** A range whose start is after its end selects nothing, whatever the name or language. */
  lemma ReversedRangeSelectsNothing(table: seq<Article>, value: string, startDate: Date, endDate: Date)
    requires !DateLeq(startDate, endDate)
    ensures GetArticlesByNameAndDate(table, value, startDate, endDate) == []
    ensures GetArticlesByLanguageAndDate(table, value, startDate, endDate) == []
  {
    var byName := GetArticlesByNameAndDate(table, value, startDate, endDate);
    var byLanguage := GetArticlesByLanguageAndDate(table, value, startDate, endDate);
    if byName != [] {
      assert byName[0] in byName;
      NothingBetween(byName[0].date.date, startDate, endDate);
    }
    if byLanguage != [] {
      assert byLanguage[0] in byLanguage;
      NothingBetween(byLanguage[0].date.date, startDate, endDate);
    }
  }

  lemma IdSelectsOneRow(table: seq<Article>, id: int)
    ensures Sql.Where(table, WithId(id)) == [] <==> !HasId(table, id)
    ensures UniqueIds(table) ==> |Sql.Where(table, WithId(id))| == if HasId(table, id) then 1 else 0
  {
    var r := Sql.Where(table, WithId(id));
    if HasId(table, id) {
      var a :| a in table && a.id == id;
      assert a in r;
    }
    if r != [] {
      assert r[0] in r;
    }
    if UniqueIds(table) {
      Sql.WhereByKey(table, WithId(id), IdOf, id);
    }
  }

  /** `getArticleById`: the row with that id, or no row. */
  function GetArticleById(table: seq<Article>, id: int): (r: seq<Article>)
    ensures forall a :: a in r <==> a in table && a.id == id
    ensures r == [] <==> !HasId(table, id)
    ensures UniqueIds(table) ==> |r| == if HasId(table, id) then 1 else 0
  {
    IdSelectsOneRow(table, id);
    Sql.Where(table, WithId(id))
  }

  /** `getArticleDetailsById`: the annotation columns of the first row with that id, or None (`rows[0]` undefined). */
  function GetArticleDetailsById(table: seq<Article>, id: int): (r: Option<Details>)
    ensures r.None? <==> !HasId(table, id)
    ensures UniqueIds(table) ==> forall a :: a in table && a.id == id ==> r == Some(a.details)
  {
    Sql.UniqueKeysIdentify(table, IdOf);
    var rows := GetArticleById(table, id);
    if rows == [] then None else Some(rows[0].details)
  }

  /** The row `UPDATE news SET <c> = v` leaves. */
  function SetColumnOf(c: Column, v: Text): Article -> Article {
    (a: Article) => a.(details := Set(a.details, c, v))
  }

  /** `UPDATE news SET <c> = v WHERE id = ?`: the rows with that id get `v` in column `c`; nothing else changes. */
  function SetColumnWhere(table: seq<Article>, id: int, c: Column, v: Text): (r: seq<Article>)
    ensures |r| == |table|
    ensures forall i :: 0 <= i < |table| && table[i].id != id ==> r[i] == table[i]
    ensures forall i :: 0 <= i < |table| && table[i].id == id ==> r[i] == table[i].(details := Set(table[i].details, c, v))
  {
    Sql.UpdateWhere(table, WithId(id), SetColumnOf(c, v))
  }

  /** `DELETE FROM news WHERE id = ?`: every row without that id stays, in its order. */
  function DeleteWhere(table: seq<Article>, id: int): (r: seq<Article>)
    ensures forall a :: a in r <==> a in table && a.id != id
    ensures multiset(r) <= multiset(table)
    ensures forall a: Article :: a.id != id ==> multiset(r)[a] == multiset(table)[a]
  {
    Sql.Where(table, WithoutId(id))
  }

  /**
   * The row `INSERT INTO news (...) VALUES (...)` creates under a generated id:
   * keyword, classification and expection are not in the column list and take
   * their default, NULL.
   */
  function RowOf(id: int, f: NewArticle): Article {
    Article(id, f.name, f.title, f.date, f.language, Details(f.summary, None, None, None, f.memo), f.ranking, f.url, f.image)
  }

  /** The details a read shows after `SET <c> = v`: absent if the row is absent. */
  function SetDetails(o: Option<Details>, c: Column, v: Text): Option<Details> {
    match o
    case None => None
    case Some(d) => Some(Set(d, c, v))
  }

  /** An update keeps every row's id, so the ids stay unique and the same ids are present. */
  lemma UpdateKeepsIds(table: seq<Article>, id: int, c: Column, v: Text)
    requires UniqueIds(table)
    ensures UniqueIds(SetColumnWhere(table, id, c, v))
    ensures HasId(SetColumnWhere(table, id, c, v), id) <==> HasId(table, id)
  {
    var r := SetColumnWhere(table, id, c, v);
    Sql.UpdateKeepsUniqueKeys(table, WithId(id), SetColumnOf(c, v), IdOf);
    if HasId(table, id) {
      var a :| a in table && a.id == id;
      var i :| 0 <= i < |table| && table[i] == a;
      assert r[i] in r && IdOf(r[i]) == id;
    } else {
      UpdateMissingIdIsNoop(table, id, c, v);
    }
  }

  /** A read of that id after an update sees `v` in column `c` and every other column as before. */
  lemma UpdateThenRead(table: seq<Article>, id: int, c: Column, v: Text)
    requires UniqueIds(table)
    ensures GetArticleDetailsById(SetColumnWhere(table, id, c, v), id) == SetDetails(GetArticleDetailsById(table, id), c, v)
  {
    var r := SetColumnWhere(table, id, c, v);
    UpdateKeepsIds(table, id, c, v);
    if HasId(table, id) {
      var a :| a in table && a.id == id;
      var i :| 0 <= i < |table| && table[i] == a;
      var b := r[i];
      assert b in r && b.id == id && b.details == Set(a.details, c, v);
      assert GetArticleDetailsById(table, id) == Some(a.details);
      assert GetArticleDetailsById(r, id) == Some(b.details);
    } else {
      UpdateMissingIdIsNoop(table, id, c, v);
    }
  }

  /** Every id is below the AUTO_INCREMENT counter `bound`. */
  ghost predicate IdsBelow(table: seq<Article>, bound: int) {
    forall i :: 0 <= i < |table| ==> table[i].id < bound
  }

  lemma UpdateKeepsIdsBelow(table: seq<Article>, id: int, c: Column, v: Text, bound: int)
    requires IdsBelow(table, bound)
    ensures IdsBelow(SetColumnWhere(table, id, c, v), bound)
  {
    var r := SetColumnWhere(table, id, c, v);
    assert forall i :: 0 <= i < |r| ==> r[i].id == table[i].id;
  }

  /** An update of an id no row has leaves the table as it was (`affectedRows` 0). */
  lemma UpdateMissingIdIsNoop(table: seq<Article>, id: int, c: Column, v: Text)
    requires !HasId(table, id)
    ensures SetColumnWhere(table, id, c, v) == table
  {
    var r := SetColumnWhere(table, id, c, v);
    forall i | 0 <= i < |table| ensures r[i] == table[i] {
      assert table[i] in table;
    }
  }

  /** After a delete no row has that id: both reads by id come back empty. */
  lemma DeleteThenRead(table: seq<Article>, id: int)
    requires UniqueIds(table)
    ensures UniqueIds(DeleteWhere(table, id))
    ensures GetArticleById(DeleteWhere(table, id), id) == []
    ensures GetArticleDetailsById(DeleteWhere(table, id), id) == None
  {
    Sql.WhereKeepsUniqueKeys(table, WithoutId(id), IdOf);
  }

  /** A delete keeps every remaining id below the AUTO_INCREMENT counter `bound`. */
  lemma DeleteKeepsIdsBelow(table: seq<Article>, id: int, bound: int)
    requires IdsBelow(table, bound)
    ensures IdsBelow(DeleteWhere(table, id), bound)
  {
    var r := DeleteWhere(table, id);
    forall i | 0 <= i < |r| ensures r[i].id < bound {
      assert r[i] in table;
    }
  }

  /** An insert under a fresh id keeps the ids unique, and a read of that id sees exactly the new row. */
  lemma InsertThenRead(table: seq<Article>, a: Article)
    requires UniqueIds(table) && !HasId(table, a.id)
    ensures UniqueIds(table + [a])
    ensures GetArticleById(table + [a], a.id) == [a]
    ensures GetArticleDetailsById(table + [a], a.id) == Some(a.details)
  {
    var t := table + [a];
    forall i, j | 0 <= i < j < |t| ensures t[i].id != t[j].id {
      if j == |table| { assert t[i] in table; } else { assert t[i] == table[i] && t[j] == table[j]; }
    }
    assert UniqueIds(t);
    assert a in t;
    var r := GetArticleById(t, a.id);
    assert |r| == 1 && r[0] in r;
  }

  /** An empty keyword is a substring of every title, so `searchByTitle('')` returns every row. */
  lemma SearchEmptyKeyword(table: seq<Article>)
    ensures multiset(SearchByTitle(table, "")) == multiset(table)
  {
    var r := SearchByTitle(table, "");
    forall a ensures multiset(r)[a] == multiset(table)[a] {
      Sql.ContainsEmpty(a.title);
    }
  }

  /**
   * The state of `news` behind the module-level connection pool: its rows in
   * storage order and its AUTO_INCREMENT counter.
   */
  class NewsTable {
    var rows: seq<Article>
    var nextId: int

    ghost predicate Valid()
      reads this
    {
      UniqueIds(rows) && IdsBelow(rows, nextId)
    }

    constructor ()
      ensures Valid() && rows == [] && nextId == 1
    {
      rows := [];
      nextId := 1;
    }

    /**
     * `UPDATE news SET <c> = ? WHERE id = ?`, the statement behind every
     * `update*` operation; `affectedRows` counts the rows the id matches.
     */
    method UpdateColumn(c: Column, id: int, v: Text) returns (affectedRows: nat)
      requires Valid()
      modifies this
      ensures Valid() && nextId == old(nextId)
      ensures rows == SetColumnWhere(old(rows), id, c, v)
      ensures affectedRows == if HasId(old(rows), id) then 1 else 0
      ensures affectedRows == 0 ==> rows == old(rows)
      ensures GetArticleDetailsById(rows, id) == SetDetails(old(GetArticleDetailsById(rows, id)), c, v)
    {
      affectedRows := |GetArticleById(rows, id)|;
      UpdateKeepsIds(rows, id, c, v);
      UpdateThenRead(rows, id, c, v);
      UpdateKeepsIdsBelow(rows, id, c, v, nextId);
      if affectedRows == 0 {
        UpdateMissingIdIsNoop(rows, id, c, v);
      }
      rows := SetColumnWhere(rows, id, c, v);
    }

    /** `updateSummary`. */
    method UpdateSummary(id: int, summary: Text) returns (affectedRows: nat)
      requires Valid()
      modifies this
      ensures Valid() && nextId == old(nextId)
      ensures rows == SetColumnWhere(old(rows), id, Summary, summary)
      ensures affectedRows == if HasId(old(rows), id) then 1 else 0
      ensures GetArticleDetailsById(rows, id) == SetDetails(old(GetArticleDetailsById(rows, id)), Summary, summary)
    {
      affectedRows := UpdateColumn(Summary, id, summary);
    }

    /** `updateMemo`. */
    method UpdateMemo(id: int, memo: Text) returns (affectedRows: nat)
      requires Valid()
      modifies this
      ensures Valid() && nextId == old(nextId)
      ensures rows == SetColumnWhere(old(rows), id, Memo, memo)
      ensures affectedRows == if HasId(old(rows), id) then 1 else 0
      ensures GetArticleDetailsById(rows, id) == SetDetails(old(GetArticleDetailsById(rows, id)), Memo, memo)
    {
      affectedRows := UpdateColumn(Memo, id, memo);
    }

    /** `updateClassification`. */
    method UpdateClassification(id: int, classification: Text) returns (affectedRows: nat)
      requires Valid()
      modifies this
      ensures Valid() && nextId == old(nextId)
      ensures rows == SetColumnWhere(old(rows), id, Classification, classification)
      ensures affectedRows == if HasId(old(rows), id) then 1 else 0
      ensures GetArticleDetailsById(rows, id) == SetDetails(old(GetArticleDetailsById(rows, id)), Classification, classification)
    {
      affectedRows := UpdateColumn(Classification, id, classification);
    }

    /** `updateExpection`. */
    method UpdateExpection(id: int, expection: Text) returns (affectedRows: nat)
      requires Valid()
      modifies this
      ensures Valid() && nextId == old(nextId)
      ensures rows == SetColumnWhere(old(rows), id, Expection, expection)
      ensures affectedRows == if HasId(old(rows), id) then 1 else 0
      ensures GetArticleDetailsById(rows, id) == SetDetails(old(GetArticleDetailsById(rows, id)), Expection, expection)
    {
      affectedRows := UpdateColumn(Expection, id, expection);
    }

    /** `updateKeyword`. */
    method UpdateKeyword(id: int, keyword: Text) returns (affectedRows: nat)
      requires Valid()
      modifies this
      ensures Valid() && nextId == old(nextId)
      ensures rows == SetColumnWhere(old(rows), id, Keyword, keyword)
      ensures affectedRows == if HasId(old(rows), id) then 1 else 0
      ensures GetArticleDetailsById(rows, id) == SetDetails(old(GetArticleDetailsById(rows, id)), Keyword, keyword)
    {
      affectedRows := UpdateColumn(Keyword, id, keyword);
    }

    /** `addArticle`: one new row holding the nine values, under the next AUTO_INCREMENT id; `insertId` is that id. */
    method AddArticle(fields: NewArticle) returns (insertId: int)
      requires Valid()
      modifies this
      ensures Valid()
      ensures insertId == old(nextId) && nextId == old(nextId) + 1
      ensures !HasId(old(rows), insertId)
      ensures rows == old(rows) + [RowOf(insertId, fields)]
      ensures GetArticleById(rows, insertId) == [RowOf(insertId, fields)]
      ensures GetArticleDetailsById(rows, insertId) == Some(Details(fields.summary, None, None, None, fields.memo))
    {
      insertId := nextId;
      var row := RowOf(insertId, fields);
      assert !HasId(rows, insertId) by {
        forall a | a in rows ensures a.id != insertId {
          var i :| 0 <= i < |rows| && rows[i] == a;
        }
      }
      InsertThenRead(rows, row);
      rows := rows + [row];
      nextId := nextId + 1;
    }

    /** `deleteArticleById`: removes the row with that id, if any; `affectedRows` counts the rows removed. */
    method DeleteArticleById(id: int) returns (affectedRows: nat)
      requires Valid()
      modifies this
      ensures Valid() && nextId == old(nextId)
      ensures rows == DeleteWhere(old(rows), id)
      ensures affectedRows == if HasId(old(rows), id) then 1 else 0
      ensures GetArticleById(rows, id) == [] && GetArticleDetailsById(rows, id) == None
    {
      affectedRows := |GetArticleById(rows, id)|;
      DeleteThenRead(rows, id);
      DeleteKeepsIdsBelow(rows, id, nextId);
      rows := DeleteWhere(rows, id);
    }
  }
}
