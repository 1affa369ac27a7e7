/**
 * The deduplicating store writer. The `articles` table is a map from URL
 * (its UNIQUE column) to the article stored under it; the `collectes`
 * table is an append-only sequence of run records. A batch is written by
 * issuing one insert-if-absent statement per article and counting the
 * statements that actually inserted a row.
 */
module Store {
  import opened Normalizer

  // ---------------------------------------------------------------------
  // Run records (the `collectes` table)
  // ---------------------------------------------------------------------

  /** One entry of the per-region `details` object of a run. */
  datatype RegionDetail = RegionDetail(
    region: string,
    sourcesOk: nat,
    sourcesTotal: nat,
    articlesNouveaux: nat,
    articlesTotal: nat)

  /** One row of the `collectes` table; `details` keeps the regions in catalog order. */
  datatype CollectionRun = CollectionRun(
    sourcesTotal: nat,
    sourcesOk: nat,
    articlesNouveaux: nat,
    details: seq<RegionDetail>)

  // ---------------------------------------------------------------------
  // The batch writer, as a function of the table before the batch
  // ---------------------------------------------------------------------

  type Rows = map<string, Article>

  /** The UNIQUE constraint on `url`: every row is stored under its own URL. */
  ghost predicate KeyedByUrl(rows: Rows)
  {
    forall u :: u in rows ==> rows[u].url == u
  }

  /** `later` keeps every row of `earlier` unchanged. */
  ghost predicate Extends(earlier: Rows, later: Rows)
  {
    forall u :: u in earlier ==> u in later && later[u] == earlier[u]
  }

  /** One statement: a failing insert or a URL already present leaves the table as it is. */
  function InsertRow(rows: Rows, a: Article, fails: bool): (r: Rows)
    ensures Extends(rows, r)
    ensures r.Keys == if fails then rows.Keys else rows.Keys + {a.url}
    ensures !fails && a.url !in rows ==> r[a.url] == a
  {
    if fails || a.url in rows then rows else rows[a.url := a]
  }

  /** The table after the statements for `batch` ran in order; `rejects(a)` means the insert of `a` raises. */
  function SavedRows(rows: Rows, batch: seq<Article>, rejects: Article -> bool): (r: Rows)
    ensures rows.Keys <= r.Keys
    decreases |batch|
  {
    if batch == [] then rows
    else
      var a := batch[|batch| - 1];
      InsertRow(SavedRows(rows, batch[..|batch| - 1], rejects), a, rejects(a))
  }

  /** The `nouveaux` counter: statements whose row count was positive. */
  function NewCount(rows: Rows, batch: seq<Article>, rejects: Article -> bool): (n: nat)
    ensures n <= |batch|
    decreases |batch|
  {
    if batch == [] then 0
    else
      var init := batch[..|batch| - 1];
      var a := batch[|batch| - 1];
      var before := SavedRows(rows, init, rejects);
      NewCount(rows, init, rejects) + (if rejects(a) || a.url in before then 0 else 1)
  }

  /** URLs of the articles of `batch` whose insert does not raise. */
  ghost function AcceptedUrls(batch: seq<Article>, rejects: Article -> bool): set<string>
  {
    set i | 0 <= i < |batch| && !rejects(batch[i]) :: batch[i].url
  }

  /** Writing a batch keeps the table keyed by URL and never changes a stored row. */
  lemma {:induction false} SavedRowsExtends(rows: Rows, batch: seq<Article>, rejects: Article -> bool)
    requires KeyedByUrl(rows)
    ensures KeyedByUrl(SavedRows(rows, batch, rejects))
    ensures Extends(rows, SavedRows(rows, batch, rejects))
    decreases |batch|
  {
    if batch != [] {
      SavedRowsExtends(rows, batch[..|batch| - 1], rejects);
    }
  }

  /** The stored URLs afterwards are the old ones plus those of the batch's non-failing articles. */
  lemma {:induction false} SavedRowsKeys(rows: Rows, batch: seq<Article>, rejects: Article -> bool)
    ensures SavedRows(rows, batch, rejects).Keys == rows.Keys + AcceptedUrls(batch, rejects)
    decreases |batch|
  {
    if batch != [] {
      var init := batch[..|batch| - 1];
      var a := batch[|batch| - 1];
      SavedRowsKeys(rows, init, rejects);
      var accepted := AcceptedUrls(batch, rejects);
      var acceptedInit := AcceptedUrls(init, rejects);
      assert forall i :: 0 <= i < |init| ==> init[i] == batch[i];
      if rejects(a) {
        assert accepted == acceptedInit;
      } else {
        assert accepted == acceptedInit + {a.url};
      }
    }
  }

  /** The counter equals the number of URLs the batch added to the table. */
  lemma {:induction false} NewCountIsNewKeys(rows: Rows, batch: seq<Article>, rejects: Article -> bool)
    ensures NewCount(rows, batch, rejects) == |SavedRows(rows, batch, rejects).Keys - rows.Keys|
    decreases |batch|
  {
    if batch != [] {
      var init := batch[..|batch| - 1];
      var a := batch[|batch| - 1];
      var before := SavedRows(rows, init, rejects);
      NewCountIsNewKeys(rows, init, rejects);
      if !rejects(a) && a.url !in before {
        SavedRowsKeys(rows, init, rejects);
        NewKeyCount(rows.Keys, before, a);
      }
    }
  }

  /** Adding an absent key to a table that holds every old key adds one new key. */
  lemma NewKeyCount(known: set<string>, before: Rows, a: Article)
    requires known <= before.Keys && a.url !in before
    ensures |before[a.url := a].Keys - known| == |before.Keys - known| + 1
  {
    var d := before.Keys - known;
    assert before[a.url := a].Keys - known == d + {a.url};
    assert a.url !in d;
  }

  /** The result is the number of distinct URLs of non-failing articles the table did not hold yet. */
  lemma NewCountDistinctNewUrls(rows: Rows, batch: seq<Article>, rejects: Article -> bool)
    ensures NewCount(rows, batch, rejects) == |AcceptedUrls(batch, rejects) - rows.Keys|
  {
    NewCountIsNewKeys(rows, batch, rejects);
    SavedRowsKeys(rows, batch, rejects);
    assert SavedRows(rows, batch, rejects).Keys - rows.Keys == AcceptedUrls(batch, rejects) - rows.Keys;
  }

  /** A new URL is stored with the first non-failing article of the batch that carries it. */
  lemma {:induction false} FirstOccurrenceWins(rows: Rows, batch: seq<Article>, rejects: Article -> bool, u: string)
    requires u in SavedRows(rows, batch, rejects) && u !in rows
    ensures exists i :: 0 <= i < |batch| && !rejects(batch[i]) && batch[i] == SavedRows(rows, batch, rejects)[u]
              && batch[i].url == u
              && forall j :: 0 <= j < i ==> batch[j].url != u || rejects(batch[j])
    decreases |batch|
  {
    var init := batch[..|batch| - 1];
    var a := batch[|batch| - 1];
    var before := SavedRows(rows, init, rejects);
    assert forall i :: 0 <= i < |init| ==> init[i] == batch[i];
    if u in before {
      FirstOccurrenceWins(rows, init, rejects, u);
    } else {
      assert !rejects(a) && a.url == u;
      SavedRowsKeys(rows, init, rejects);
      forall j | 0 <= j < |batch| - 1 ensures batch[j].url != u || rejects(batch[j]) {
        assert !rejects(init[j]) ==> init[j].url in AcceptedUrls(init, rejects);
      }
    }
  }

  /** Writing `a + b` is writing `a` and then `b`, and the counts add up. */
  lemma {:induction false} SaveAppend(rows: Rows, a: seq<Article>, b: seq<Article>, rejects: Article -> bool)
    ensures SavedRows(rows, a + b, rejects) == SavedRows(SavedRows(rows, a, rejects), b, rejects)
    ensures NewCount(rows, a + b, rejects) == NewCount(rows, a, rejects) + NewCount(SavedRows(rows, a, rejects), b, rejects)
    decreases |b|
  {
    if b == [] {
      assert a + b == a;
    } else {
      var b' := b[..|b| - 1];
      assert (a + b)[..|a + b| - 1] == a + b';
      assert (a + b)[|a + b| - 1] == b[|b| - 1];
      SaveAppend(rows, a, b', rejects);
    }
  }

  /** A failing insert is skipped: the batch behaves as if that article were not in it. */
  lemma RejectedArticleIsolated(rows: Rows, batch: seq<Article>, k: nat, rejects: Article -> bool)
    requires k < |batch| && rejects(batch[k])
    ensures SavedRows(rows, batch, rejects) == SavedRows(rows, batch[..k] + batch[k + 1..], rejects)
    ensures NewCount(rows, batch, rejects) == NewCount(rows, batch[..k] + batch[k + 1..], rejects)
  {
    var pre, post := batch[..k], batch[k + 1..];
    assert batch == pre + [batch[k]] + post;
    var mid := SavedRows(rows, pre, rejects);
    assert [batch[k]][..0] == [];
    assert SavedRows(mid, [batch[k]], rejects) == mid;
    assert NewCount(mid, [batch[k]], rejects) == 0;
    SaveAppend(rows, pre + [batch[k]], post, rejects);
    SaveAppend(rows, pre, [batch[k]], rejects);
    SaveAppend(rows, pre, post, rejects);
  }

  /** Articles that fail or whose URLs are stored already change nothing and count for nothing. */
  lemma {:induction false} SaveStoredIsNoOp(rows: Rows, batch: seq<Article>, rejects: Article -> bool)
    requires forall i :: 0 <= i < |batch| ==> rejects(batch[i]) || batch[i].url in rows
    ensures SavedRows(rows, batch, rejects) == rows
    ensures NewCount(rows, batch, rejects) == 0
    decreases |batch|
  {
    if batch != [] {
      var init := batch[..|batch| - 1];
      assert forall i :: 0 <= i < |init| ==> init[i] == batch[i];
      SaveStoredIsNoOp(rows, init, rejects);
    }
  }

  /**
   * Writing the same batch a second time inserts nothing and leaves the table
   * unchanged, whatever fails the second time, as long as every insert that
   * failed the first time fails again.
   */
  lemma SaveIdempotent(rows: Rows, batch: seq<Article>, rejects: Article -> bool, rejects2: Article -> bool)
    requires forall a :: a in batch && rejects(a) ==> rejects2(a)
    ensures SavedRows(SavedRows(rows, batch, rejects), batch, rejects2) == SavedRows(rows, batch, rejects)
    ensures NewCount(SavedRows(rows, batch, rejects), batch, rejects2) == 0
  {
    SaveTwiceSameBatch(rows, batch, batch, rejects, rejects2);
  }

  /**
   * Helper for idempotence: after `whole` was written, writing any part of it
   * again is a no-op (a non-failing article's URL is stored; a failing one
   * fails again).
   */
  lemma {:induction false} SaveTwiceSameBatch(rows: Rows, whole: seq<Article>, part: seq<Article>,
                                              rejects: Article -> bool, rejects2: Article -> bool)
    requires forall i :: 0 <= i < |part| ==> part[i] in whole
    requires forall a :: a in whole && rejects(a) ==> rejects2(a)
    ensures SavedRows(SavedRows(rows, whole, rejects), part, rejects2) == SavedRows(rows, whole, rejects)
    ensures NewCount(SavedRows(rows, whole, rejects), part, rejects2) == 0
    decreases |part|
  {
    if part != [] {
      var once := SavedRows(rows, whole, rejects);
      var init := part[..|part| - 1];
      var a := part[|part| - 1];
      assert forall i :: 0 <= i < |init| ==> init[i] == part[i];
      SaveTwiceSameBatch(rows, whole, init, rejects, rejects2);
      if !rejects2(a) {
        SavedRowsKeys(rows, whole, rejects);
        var i :| 0 <= i < |whole| && whole[i] == a;
        assert a.url in AcceptedUrls(whole, rejects);
      }
    }
  }

  // ---------------------------------------------------------------------
  // The batch writer on PostgreSQL: one transaction for the whole batch
  // ---------------------------------------------------------------------

  /**
   * The open transaction of the batch writer's connection: the rows it
   * sees, the statements that inserted a row, and whether the server has
   * refused a statement of the transaction (after which it refuses every
   * further statement until the transaction ends).
   */
  datatype Transaction = Transaction(rows: Rows, inserted: nat, aborted: bool)

  /**
   * One PostgreSQL statement inside the transaction. `fails` says the insert
   * raises; `refused` says the failure is the server's refusal of the
   * statement, as opposed to an error the driver raises before sending it
   * (such as a NUL character in a parameter), which leaves the transaction
   * usable.
   */
  function PgInsert(t: Transaction, a: Article, fails: bool, refused: bool): (r: Transaction)
    ensures t.aborted ==> r == t
    ensures r.aborted <==> t.aborted || (fails && refused)
    ensures !t.aborted ==> r.rows == InsertRow(t.rows, a, fails)
    ensures r.inserted == t.inserted + (if !t.aborted && !fails && a.url !in t.rows then 1 else 0)
  {
    if t.aborted then t
    else if fails then t.(aborted := refused)
    else if a.url in t.rows then t
    else Transaction(t.rows[a.url := a], t.inserted + 1, false)
  }

  /**
   * The transaction after the statements for `batch` ran in order; `rejects(a)`
   * means the insert of `a` raises and `refused(a)` that the server refused it.
   */
  function PgRun(rows: Rows, batch: seq<Article>, rejects: Article -> bool, refused: Article -> bool): Transaction
    decreases |batch|
  {
    if batch == [] then Transaction(rows, 0, false)
    else
      var a := batch[|batch| - 1];
      PgInsert(PgRun(rows, batch[..|batch| - 1], rejects, refused), a, rejects(a), refused(a))
  }

  /** One more statement continues the transaction left by the earlier ones. */
  lemma PgRunStep(rows: Rows, batch: seq<Article>, rejects: Article -> bool, refused: Article -> bool, i: nat)
    requires i < |batch|
    ensures PgRun(rows, batch[..i + 1], rejects, refused)
         == PgInsert(PgRun(rows, batch[..i], rejects, refused), batch[i], rejects(batch[i]), refused(batch[i]))
  {
    assert batch[..i + 1][..i] == batch[..i];
  }

  /** The table after the commit: the server answers the commit of an aborted transaction with a rollback. */
  function PgCommitted(rows: Rows, batch: seq<Article>, rejects: Article -> bool, refused: Article -> bool): (r: Rows)
    ensures r == rows || r == PgRun(rows, batch, rejects, refused).rows
  {
    var t := PgRun(rows, batch, rejects, refused);
    if t.aborted then rows else t.rows
  }

  /** A failing insert whose failure aborts the transaction. */
  predicate ServerRefusal(a: Article, rejects: Article -> bool, refused: Article -> bool)
  {
    rejects(a) && refused(a)
  }

  /**
   * Without a statement the server refuses, the transaction is the SQLite
   * writer's table and count: an insert the driver rejects is skipped alone.
   */
  lemma {:induction false} PgCleanBatch(rows: Rows, batch: seq<Article>, rejects: Article -> bool, refused: Article -> bool)
    requires forall i :: 0 <= i < |batch| ==> !ServerRefusal(batch[i], rejects, refused)
    ensures PgRun(rows, batch, rejects, refused) == Transaction(SavedRows(rows, batch, rejects), NewCount(rows, batch, rejects), false)
    ensures PgCommitted(rows, batch, rejects, refused) == SavedRows(rows, batch, rejects)
    decreases |batch|
  {
    if batch != [] {
      var init := batch[..|batch| - 1];
      assert forall i :: 0 <= i < |init| ==> init[i] == batch[i];
      PgCleanBatch(rows, init, rejects, refused);
    }
  }

  /** One refused statement anywhere aborts the transaction. */
  lemma {:induction false} PgFailureAborts(rows: Rows, batch: seq<Article>, rejects: Article -> bool, refused: Article -> bool, k: nat)
    requires k < |batch| && ServerRefusal(batch[k], rejects, refused)
    ensures PgRun(rows, batch, rejects, refused).aborted
    decreases |batch|
  {
    if k < |batch| - 1 {
      var init := batch[..|batch| - 1];
      assert init[k] == batch[k];
      PgFailureAborts(rows, init, rejects, refused, k);
    }
  }

  /** The transaction is aborted exactly when the server refuses some statement of the batch. */
  lemma {:induction false} PgAbortedIffFailure(rows: Rows, batch: seq<Article>, rejects: Article -> bool, refused: Article -> bool)
    ensures PgRun(rows, batch, rejects, refused).aborted <==> exists k :: 0 <= k < |batch| && ServerRefusal(batch[k], rejects, refused)
  {
    if exists k :: 0 <= k < |batch| && ServerRefusal(batch[k], rejects, refused) {
      var k :| 0 <= k < |batch| && ServerRefusal(batch[k], rejects, refused);
      PgFailureAborts(rows, batch, rejects, refused, k);
    } else {
      PgCleanBatch(rows, batch, rejects, refused);
    }
  }

  /** Hence a batch with a refused statement leaves the table exactly as it was. */
  lemma PgFailureRollsBack(rows: Rows, batch: seq<Article>, rejects: Article -> bool, refused: Article -> bool, k: nat)
    requires k < |batch| && ServerRefusal(batch[k], rejects, refused)
    ensures PgCommitted(rows, batch, rejects, refused) == rows
  {
    PgFailureAborts(rows, batch, rejects, refused, k);
  }

  /**
   * The count returned for a batch whose first refused statement is the
   * `k`-th: the rows inserted before it, although the rollback discards them.
   */
  lemma {:induction false} PgCountBeforeFailure(rows: Rows, batch: seq<Article>, rejects: Article -> bool, refused: Article -> bool, k: nat)
    requires k < |batch| && ServerRefusal(batch[k], rejects, refused)
    requires forall j :: 0 <= j < k ==> !ServerRefusal(batch[j], rejects, refused)
    ensures PgRun(rows, batch, rejects, refused).inserted == NewCount(rows, batch[..k], rejects)
    decreases |batch|
  {
    var init := batch[..|batch| - 1];
    if k == |batch| - 1 {
      assert forall j :: 0 <= j < |init| ==> init[j] == batch[j];
      PgCleanBatch(rows, init, rejects, refused);
      assert init == batch[..k];
    } else {
      assert forall j :: 0 <= j <= k ==> init[j] == batch[j];
      PgCountBeforeFailure(rows, init, rejects, refused, k);
      PgFailureAborts(rows, init, rejects, refused, k);
      assert init[..k] == batch[..k];
    }
  }

  /** A new article followed by one the server refuses: one row counted, none kept. */
  lemma PgOverCount(rows: Rows, a: Article, b: Article, rejects: Article -> bool, refused: Article -> bool)
    requires a.url !in rows && !rejects(a) && ServerRefusal(b, rejects, refused)
    ensures PgRun(rows, [a, b], rejects, refused).inserted == 1
    ensures PgCommitted(rows, [a, b], rejects, refused) == rows
  {
    assert [a, b][..1] == [a];
    assert [a][..0] == [];
    assert PgRun(rows, [a], rejects, refused) == Transaction(rows[a.url := a], 1, false);
  }

  /**
   * An insert the driver rejects before sending it (between two new
   * articles) leaves the transaction usable: both new articles are committed
   * and counted.
   */
  lemma PgDriverErrorKeepsOthers(rows: Rows, a: Article, c: Article, b: Article, rejects: Article -> bool, refused: Article -> bool)
    requires a.url !in rows && b.url !in rows && a.url != b.url
    requires !rejects(a) && !rejects(b) && rejects(c) && !refused(c)
    ensures PgRun(rows, [a, c, b], rejects, refused).inserted == 2
    ensures PgCommitted(rows, [a, c, b], rejects, refused) == rows[a.url := a][b.url := b]
  {
    assert [a, c, b][..2] == [a, c];
    assert [a, c][..1] == [a];
    assert [a][..0] == [];
    assert PgRun(rows, [a], rejects, refused) == Transaction(rows[a.url := a], 1, false);
    assert PgRun(rows, [a, c], rejects, refused) == Transaction(rows[a.url := a], 1, false);
  }

  // ---------------------------------------------------------------------
  // The database
  // ---------------------------------------------------------------------

  class Database {
    /** The `articles` table, by URL. */
    var articles: Rows
    /** The `collectes` table, oldest first. */
    var runs: seq<CollectionRun>

    ghost predicate Valid()
      reads this
    {
      KeyedByUrl(articles)
    }

    constructor ()
      ensures Valid() && articles == map[] && runs == []
    {
      articles := map[];
      runs := [];
    }

    /** SQLite `INSERT OR IGNORE`: raises when `fails`; otherwise inserts unless the URL is stored. */
    method InsertOrIgnore(a: Article, fails: bool) returns (raised: bool, rowcount: nat)
      requires Valid()
      modifies this
      ensures Valid() && runs == old(runs)
      ensures raised == fails
      ensures articles == InsertRow(old(articles), a, fails)
      ensures rowcount == (if !fails && a.url !in old(articles) then 1 else 0)
    {
      raised := fails;
      rowcount := 0;
      if !fails && a.url !in articles {
        articles := articles[a.url := a];
        rowcount := 1;
      }
    }

    /**
     * PostgreSQL's insert that does nothing on a URL conflict, run inside the
     * writer's transaction: it raises when the transaction has already
     * failed (`inFailedTransaction`) or when the statement itself fails,
     * whether the server refuses it or the driver rejects it unsent.
     */
    method InsertOnConflictDoNothing(a: Article, fails: bool, inFailedTransaction: bool) returns (raised: bool, rowcount: nat)
      requires Valid()
      modifies this
      ensures Valid() && runs == old(runs)
      ensures raised == (inFailedTransaction || fails)
      ensures articles == (if inFailedTransaction then old(articles) else InsertRow(old(articles), a, fails))
      ensures rowcount == (if !raised && a.url !in old(articles) then 1 else 0)
    {
      raised := inFailedTransaction || fails;
      if raised {
        rowcount := 0;
      } else if a.url in articles {
        rowcount := 0;
      } else {
        articles := articles[a.url := a];
        rowcount := 1;
      }
    }

    /**
     * The same insert wrapped in its own savepoint, rolled back to on
     * failure: a failing statement undoes only itself and the transaction
     * stays usable.
     */
    method InsertUnderSavepoint(a: Article, fails: bool) returns (raised: bool, rowcount: nat)
      requires Valid()
      modifies this
      ensures Valid() && runs == old(runs)
      ensures raised == fails
      ensures articles == InsertRow(old(articles), a, fails)
      ensures rowcount == (if !fails && a.url !in old(articles) then 1 else 0)
    {
      raised, rowcount := InsertOnConflictDoNothing(a, fails, false);
    }

    /** `save_articles` of the collector: one SQLite insert per article, counting rows inserted. */
    method SaveArticles(batch: seq<Article>, rejects: Article -> bool) returns (nouveaux: nat)
      requires Valid()
      modifies this
      ensures Valid() && runs == old(runs)
      ensures articles == SavedRows(old(articles), batch, rejects)
      ensures nouveaux == NewCount(old(articles), batch, rejects)
    {
      if batch == [] {
        return 0;
      }
      nouveaux := 0;
      var i := 0;
      while i < |batch|
        invariant 0 <= i <= |batch|
        invariant Valid() && runs == old(runs)
        invariant articles == SavedRows(old(articles), batch[..i], rejects)
        invariant nouveaux == NewCount(old(articles), batch[..i], rejects)
      {
        assert batch[..i + 1][..i] == batch[..i];
        var raised, rowcount := InsertOrIgnore(batch[i], rejects(batch[i]));
        if !raised && rowcount > 0 {
          nouveaux := nouveaux + 1;
        }
        i := i + 1;
      }
      assert batch[..i] == batch;
    }

    /**
     * The PostgreSQL branch of `save_articles_batch`: the batch is one
     * transaction; after a statement the server refused every later one
     * raises, and the final commit rolls the transaction back. An insert the
     * driver rejects before sending it raises without aborting.
     */
    method SaveInTransaction(batch: seq<Article>, rejects: Article -> bool, refused: Article -> bool) returns (nouveaux: nat)
      requires Valid()
      modifies this
      ensures Valid() && runs == old(runs)
      ensures articles == PgCommitted(old(articles), batch, rejects, refused)
      ensures nouveaux == PgRun(old(articles), batch, rejects, refused).inserted
    {
      var start := articles;
      var aborted := false;
      nouveaux := 0;
      var i := 0;
      while i < |batch|
        invariant 0 <= i <= |batch|
        invariant Valid() && runs == old(runs) && start == old(articles)
        invariant PgRun(start, batch[..i], rejects, refused) == Transaction(articles, nouveaux, aborted)
      {
        PgRunStep(start, batch, rejects, refused, i);
        var raised, rowcount := InsertOnConflictDoNothing(batch[i], rejects(batch[i]), aborted);
        aborted := aborted || (raised && refused(batch[i]));
        if !raised && rowcount > 0 {
          nouveaux := nouveaux + 1;
        }
        i := i + 1;
      }
      assert batch[..i] == batch;
      if aborted {
        articles := start;
      }
    }

    /**
     * `save_articles_batch`: an empty batch returns 0; otherwise the batch is
     * written with the configured backend's statement (the SQLite branch is
     * the collector's own writer statement for statement).
     */
    method SaveArticlesBatch(usePostgres: bool, batch: seq<Article>, rejects: Article -> bool, refused: Article -> bool)
      returns (nouveaux: nat)
      requires Valid()
      modifies this
      ensures Valid() && runs == old(runs)
      ensures !usePostgres ==> articles == SavedRows(old(articles), batch, rejects)
                               && nouveaux == NewCount(old(articles), batch, rejects)
      ensures usePostgres ==> articles == PgCommitted(old(articles), batch, rejects, refused)
                              && nouveaux == PgRun(old(articles), batch, rejects, refused).inserted
    {
      if batch == [] {
        return 0;
      }
      if usePostgres {
        nouveaux := SaveInTransaction(batch, rejects, refused);
      } else {
        nouveaux := SaveArticles(batch, rejects);
      }
    }

    /** The PostgreSQL branch with one savepoint per statement: a failing article is skipped, the others kept. */
    method SaveWithSavepoints(batch: seq<Article>, rejects: Article -> bool) returns (nouveaux: nat)
      requires Valid()
      modifies this
      ensures Valid() && runs == old(runs)
      ensures articles == SavedRows(old(articles), batch, rejects)
      ensures nouveaux == NewCount(old(articles), batch, rejects)
    {
      nouveaux := 0;
      var i := 0;
      while i < |batch|
        invariant 0 <= i <= |batch|
        invariant Valid() && runs == old(runs)
        invariant articles == SavedRows(old(articles), batch[..i], rejects)
        invariant nouveaux == NewCount(old(articles), batch[..i], rejects)
      {
        assert batch[..i + 1][..i] == batch[..i];
        var raised, rowcount := InsertUnderSavepoint(batch[i], rejects(batch[i]));
        if !raised && rowcount > 0 {
          nouveaux := nouveaux + 1;
        }
        i := i + 1;
      }
      assert batch[..i] == batch;
    }

    /** The batch writer with savepoints: on both backends the table and count of the SQLite writer. */
    method SaveArticlesBatchCorrected(usePostgres: bool, batch: seq<Article>, rejects: Article -> bool) returns (nouveaux: nat)
      requires Valid()
      modifies this
      ensures Valid() && runs == old(runs)
      ensures articles == SavedRows(old(articles), batch, rejects)
      ensures nouveaux == NewCount(old(articles), batch, rejects)
    {
      if batch == [] {
        return 0;
      }
      if usePostgres {
        nouveaux := SaveWithSavepoints(batch, rejects);
      } else {
        nouveaux := SaveArticles(batch, rejects);
      }
    }

    /**
     * The insert of a run record into `collectes`, committed on its own
     * connection: one row appended, or, when the statement fails, nothing
     * appended and the error raised to the caller.
     */
    method RecordRun(run: CollectionRun, fails: bool) returns (raised: bool)
      requires Valid()
      modifies this
      ensures Valid()
      ensures articles == old(articles)
      ensures raised == fails
      ensures runs == if fails then old(runs) else old(runs) + [run]
    {
      raised := fails;
      if !fails {
        runs := runs + [run];
      }
    }
  }
}
