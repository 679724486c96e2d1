/** The `update_scores` route of app.py: read a class's usernames, scrape
    their new counts, then fold the (username, score) pairs over the class
    table inside one transaction that is committed only if the whole fold
    succeeds.

    The SQLite store is a map from table name to the rows of that table, in
    rowid order. SQLite matches table names ignoring the case of ASCII
    letters, so the map is keyed by names lower-cased as `TableKey` does. */
module App {
  import opened Wrappers
  import Seqs
  import Scraper

  /** One row of a class table; the three numeric columns may be NULL. */
  datatype Row = Row(sNo: int, userName: string, rollNo: string,
                     previous: Option<int>, recent: Option<int>, count: Option<int>)

  type Table = seq<Row>

  type Database = map<string, Table>

  function AsciiLower(c: char): char {
    if 'A' <= c <= 'Z' then (c as int + 32) as char else c
  }

  /** The key under which the table `name` is found: names that differ only
      in the case of ASCII letters reach the same table. */
  function TableKey(name: string): (key: string)
    ensures |key| == |name|
    ensures forall i :: 0 <= i < |key| ==> !('A' <= key[i] <= 'Z')
  {
    seq(|name|, i requires 0 <= i < |name| => AsciiLower(name[i]))
  }

  /** `a` and `b` are the same name up to the case of ASCII letters: at each
      position the characters are equal, or one is an upper-case ASCII
      letter and the other its lower-case form. */
  predicate SameUpToAsciiCase(a: string, b: string) {
    && |a| == |b|
    && forall i :: 0 <= i < |a| ==>
      || a[i] == b[i]
      || ('A' <= a[i] <= 'Z' && b[i] as int == a[i] as int + 32)
      || ('A' <= b[i] <= 'Z' && a[i] as int == b[i] as int + 32)
  }

  /** Two names reach the same table exactly when they differ only in the
      case of ASCII letters. */
  lemma TableKeySameIff(a: string, b: string)
    ensures TableKey(a) == TableKey(b) <==> SameUpToAsciiCase(a, b)
  {
    var ka, kb := TableKey(a), TableKey(b);
    if ka == kb {
      forall i | 0 <= i < |a|
        ensures || a[i] == b[i]
                || ('A' <= a[i] <= 'Z' && b[i] as int == a[i] as int + 32)
                || ('A' <= b[i] <= 'Z' && a[i] as int == b[i] as int + 32)
      {
        assert ka[i] == AsciiLower(a[i]) && kb[i] == AsciiLower(b[i]);
      }
    }
    if SameUpToAsciiCase(a, b) {
      forall i | 0 <= i < |a|
        ensures ka[i] == kb[i]
      {
        assert ka[i] == AsciiLower(a[i]) && kb[i] == AsciiLower(b[i]);
      }
    }
  }

  /** Why a run failed. All but `NoStudents` are Python exceptions caught by
      the route's `except Exception` and answered with status 500. */
  datatype Failure =
    | NoSuchTable      // SELECT on a class that has no table
    | NoStudents       // the explicit empty-class branch, status 404
    | MissingRow       // `fetchone()` returned None and was subscripted
    | NullScore        // `int(None)` on a failed scrape
    | NullRecent       // `int(None)` on a NULL `recent_week`
    | IntegerOverflow  // an int outside SQLite's 64-bit range was bound

  /** The failures one iteration of the update loop can raise. */
  predicate IsUpdateFailure(f: Failure) {
    f.MissingRow? || f.NullScore? || f.NullRecent? || f.IntegerOverflow?
  }

  /** The JSON reply and its status. */
  datatype Reply = Updated(message: string) | Failed(status: int, cause: Failure)

  /** The reply, and the database as committed afterwards. */
  datatype Outcome = Outcome(reply: Reply, db: Database)

  const Int64Min: int := -0x8000_0000_0000_0000
  const Int64Max: int := 0x7FFF_FFFF_FFFF_FFFF

  /** What the sqlite3 module can bind as an INTEGER parameter. */
  predicate FitsInt64(x: int) {
    Int64Min <= x <= Int64Max
  }

  /** Identity columns, which no update writes. */
  predicate SameIdentity(a: Row, b: Row) {
    a.sNo == b.sNo && a.userName == b.userName && a.rollNo == b.rollNo
  }

  /** The row invariant an update establishes: `count == recent - previous`. */
  predicate Consistent(r: Row) {
    r.previous.Some? && r.recent.Some? && r.count == Some(r.recent.value - r.previous.value)
  }

  predicate HasUser(t: Table, u: string) {
    exists i :: 0 <= i < |t| && t[i].userName == u
  }

  /** `SELECT user_name FROM class`, in table order. */
  function Usernames(t: Table): seq<string> {
    seq(|t|, i requires 0 <= i < |t| => t[i].userName)
  }

  /** `SELECT recent_week ... WHERE user_name = u` followed by `fetchone()`:
      None when no row matches, otherwise the first matching row's
      `recent_week` (itself None when NULL). */
  function FetchRecent(t: Table, u: string): (r: Option<Option<int>>)
    ensures r.None? <==> !HasUser(t, u)
  {
    match Seqs.FindFirst(t, (row: Row) => row.userName == u)
    case None => None
    case Some(k) => Some(t[k].recent)
  }

  /** `UPDATE ... SET previous_week, recent_week, count WHERE user_name = u`. */
  function SetScores(t: Table, u: string, previous: int, recent: int, count: int): (r: Table)
    ensures |r| == |t|
    ensures forall i :: 0 <= i < |t| ==> SameIdentity(t[i], r[i])
    ensures forall i :: 0 <= i < |t| && t[i].userName != u ==> r[i] == t[i]
    ensures forall i :: 0 <= i < |t| && t[i].userName == u ==>
      r[i].previous == Some(previous) && r[i].recent == Some(recent) && r[i].count == Some(count)
  {
    seq(|t|, i requires 0 <= i < |t| =>
      if t[i].userName == u
      then t[i].(previous := Some(previous), recent := Some(recent), count := Some(count))
      else t[i])
  }

  /** One iteration of the update loop, for the pair `(u, score)`. */
  function ApplyPair(t: Table, u: string, score: Option<int>): (r: Result<Table, Failure>)
    ensures !HasUser(t, u) ==> r == Failure(MissingRow)
    ensures HasUser(t, u) && score.None? ==> r == Failure(NullScore)
    ensures HasUser(t, u) && score.Some? && FetchRecent(t, u).value.None? ==>
      r == Failure(NullRecent)
    ensures HasUser(t, u) && score.Some? && FetchRecent(t, u).value.Some? ==>
      var current := FetchRecent(t, u).value.value;
      !(FitsInt64(score.value) && FitsInt64(current) && FitsInt64(score.value - current)) ==>
      r == Failure(IntegerOverflow)
    ensures r.Failure? ==> IsUpdateFailure(r.error)
    ensures r.Success? <==>
      && HasUser(t, u) && score.Some? && FetchRecent(t, u).value.Some?
      && FitsInt64(score.value)
      && FitsInt64(FetchRecent(t, u).value.value)
      && FitsInt64(score.value - FetchRecent(t, u).value.value)
    ensures r.Success? ==> |r.value| == |t|
    ensures r.Success? ==> forall i :: 0 <= i < |t| ==> SameIdentity(t[i], r.value[i])
    ensures r.Success? ==> forall i :: 0 <= i < |t| && t[i].userName != u ==> r.value[i] == t[i]
    ensures r.Success? ==> forall i :: 0 <= i < |t| && t[i].userName == u ==>
      && r.value[i].previous == FetchRecent(t, u).value
      && r.value[i].recent == score
      && Consistent(r.value[i])
  {
    match FetchRecent(t, u)
    case None => Failure(MissingRow)
    case Some(current) =>
      if score.None? then Failure(NullScore)
      else if current.None? then Failure(NullRecent)
      else
        var difference := score.value - current.value;
        if !(FitsInt64(current.value) && FitsInt64(score.value) && FitsInt64(difference))
        then Failure(IntegerOverflow)
        else Success(SetScores(t, u, current.value, score.value, difference))
  }

  /** The loop over `zip(usernames, new_scores)`: pairs applied in order,
      each seeing the writes of the ones before; the first failure ends the
      run. */
  function ApplyPairs(t: Table, pairs: seq<(string, Option<int>)>): (r: Result<Table, Failure>)
    ensures |pairs| == 0 ==> r == Success(t)
    ensures r.Failure? ==> IsUpdateFailure(r.error)
    decreases |pairs|
  {
    if |pairs| == 0 then Success(t)
    else
      match ApplyPair(t, pairs[0].0, pairs[0].1)
      case Failure(e) => Failure(e)
      case Success(t1) => ApplyPairs(t1, pairs[1..])
  }

  /** Some pair of `pairs` is for username `u`. */
  predicate Mentions(pairs: seq<(string, Option<int>)>, u: string) {
    exists k :: 0 <= k < |pairs| && pairs[k].0 == u
  }

  /** The success message of the route. */
  function SuccessMessage(className: string): string {
    "Scores updated successfully for " + className
  }

  /** The scraper's `count(usernames)`, which the route imports: given the
      usernames of a class, the new scores in the same order. */
  type BatchScraper = seq<string> -> seq<Option<int>>

  /** `update_scores(class_name)`, with `count` the batch scraper it calls. */
  function UpdateScores(db: Database, className: string, count: BatchScraper): (out: Outcome)
    ensures TableKey(className) !in db ==> out == Outcome(Failed(500, NoSuchTable), db)
    ensures TableKey(className) in db && |db[TableKey(className)]| == 0 ==>
      out == Outcome(Failed(404, NoStudents), db)
    ensures out.reply.Failed? ==> out.db == db
    ensures out.reply.Failed? ==>
      (out.reply.status == 404 <==> out.reply.cause == NoStudents)
      && (out.reply.status == 404 || out.reply.status == 500)
    ensures out.reply.Failed? ==> out.reply.cause != MissingRow
    ensures out.reply.Updated? ==>
      && TableKey(className) in db && |db[TableKey(className)]| > 0
      && out.reply.message == SuccessMessage(className)
      && out.db.Keys == db.Keys
      && (forall c :: c in db && c != TableKey(className) ==> out.db[c] == db[c])
      && |out.db[TableKey(className)]| == |db[TableKey(className)]|
      && (forall i :: 0 <= i < |db[TableKey(className)]| ==>
            SameIdentity(db[TableKey(className)][i], out.db[TableKey(className)][i]))
      && (Aligned(count, Usernames(db[TableKey(className)])) ==>
            forall i :: 0 <= i < |db[TableKey(className)]| ==> Consistent(out.db[TableKey(className)][i]))
  {
    var key := TableKey(className);
    if key !in db then Outcome(Failed(500, NoSuchTable), db)
    else
      var t := db[key];
      if |Usernames(t)| == 0 then Outcome(Failed(404, NoStudents), db)
      else
        ClassRunFacts(t, count);
        match ApplyPairs(t, ClassPairs(t, count))
        case Failure(e) => Outcome(Failed(500, e), db)
        case Success(t') => Outcome(Updated(SuccessMessage(className)), db[key := t'])
  }

  // ---------------------------------------------------------------------
  // The pairs of one run
  // ---------------------------------------------------------------------

  /** `count` returns one score per username, as the scraper's does. */
  predicate Aligned(count: BatchScraper, usernames: seq<string>) {
    |count(usernames)| == |usernames|
  }

  /** The pairs a run folds over: `zip(usernames, new_scores)`, which stops
      at the shorter of the two; pair i is row i's username with the i-th
      new score. */
  function ClassPairs(t: Table, count: BatchScraper): (pairs: seq<(string, Option<int>)>)
    ensures |pairs| == if |count(Usernames(t))| < |t| then |count(Usernames(t))| else |t|
    ensures forall i :: 0 <= i < |pairs| ==> pairs[i] == (t[i].userName, count(Usernames(t))[i])
  {
    var usernames := Usernames(t);
    Seqs.Zip(usernames, count(usernames))
  }

  /** Every pair names a row of the table, and with an aligned `count`
      every row is named by a pair. */
  lemma ClassPairsCover(t: Table, count: BatchScraper)
    ensures forall k :: 0 <= k < |ClassPairs(t, count)| ==> HasUser(t, ClassPairs(t, count)[k].0)
    ensures Aligned(count, Usernames(t)) ==>
      forall i :: 0 <= i < |t| ==> Mentions(ClassPairs(t, count), t[i].userName)
  {
    var pairs := ClassPairs(t, count);
    forall k | 0 <= k < |pairs|
      ensures HasUser(t, pairs[k].0) && Mentions(pairs, t[k].userName)
    {
      assert pairs[k].0 == t[k].userName;
    }
  }

  /** What a run's fold guarantees: it never fails for a missing row, and on
      success every row keeps its identity and, with an aligned `count`,
      ends consistent. */
  lemma ClassRunFacts(t: Table, count: BatchScraper)
    ensures ApplyPairs(t, ClassPairs(t, count)) != Failure(MissingRow)
    ensures ApplyPairs(t, ClassPairs(t, count)).Success? ==>
      var t' := ApplyPairs(t, ClassPairs(t, count)).value;
      && |t'| == |t|
      && (forall i :: 0 <= i < |t| ==> SameIdentity(t[i], t'[i]))
      && (Aligned(count, Usernames(t)) ==> forall i :: 0 <= i < |t| ==> Consistent(t'[i]))
  {
    var pairs := ClassPairs(t, count);
    ClassPairsCover(t, count);
    ApplyPairsNeverMissing(t, pairs);
    ApplyPairsKeepsIdentity(t, pairs);
    ApplyPairsConsistent(t, pairs);
  }

  // ---------------------------------------------------------------------
  // The scraper as the route uses it
  // ---------------------------------------------------------------------

  /** The batch scraper of scraper.py, answered by `web`. */
  function Scraped(web: Scraper.Web): BatchScraper {
    usernames => Scraper.ScrapeResults(usernames, web)
  }

  /** The scraper's batch is aligned with its input, and slot k is None
      exactly when the k-th request failed. */
  lemma ScrapedAligned(web: Scraper.Web, usernames: seq<string>)
    ensures Aligned(Scraped(web), usernames)
    ensures forall k :: 0 <= k < |usernames| ==>
      Scraped(web)(usernames)[k] == Scraper.ProblemsSolved(web(k, usernames[k]))
  {
  }

  // ---------------------------------------------------------------------
  // Properties of the fold
  // ---------------------------------------------------------------------

  /** `s_no`, `user_name` and `roll_no` are never written, and no row is
      added or removed. */
  lemma {:induction false} ApplyPairsKeepsIdentity(t: Table, pairs: seq<(string, Option<int>)>)
    ensures ApplyPairs(t, pairs).Success? ==>
      && |ApplyPairs(t, pairs).value| == |t|
      && forall i :: 0 <= i < |t| ==> SameIdentity(t[i], ApplyPairs(t, pairs).value[i])
    decreases |pairs|
  {
    if |pairs| > 0 {
      var r := ApplyPair(t, pairs[0].0, pairs[0].1);
      if r.Success? {
        ApplyPairsKeepsIdentity(r.value, pairs[1..]);
      }
    }
  }

  lemma MentionsTail(pairs: seq<(string, Option<int>)>, u: string)
    requires |pairs| > 0
    ensures Mentions(pairs, u) <==> pairs[0].0 == u || Mentions(pairs[1..], u)
  {
    if Mentions(pairs[1..], u) {
      var k :| 0 <= k < |pairs| - 1 && pairs[1..][k].0 == u;
      assert pairs[k + 1].0 == u;
    }
    if Mentions(pairs, u) && pairs[0].0 != u {
      var k :| 0 <= k < |pairs| && pairs[k].0 == u;
      assert pairs[1..][k - 1].0 == u;
    }
  }

  /** Rows whose username no pair names are left exactly as they were. */
  lemma {:induction false} ApplyPairsUntouched(t: Table, pairs: seq<(string, Option<int>)>)
    requires ApplyPairs(t, pairs).Success?
    ensures forall i :: 0 <= i < |t| && !Mentions(pairs, t[i].userName) ==>
      i < |ApplyPairs(t, pairs).value| && ApplyPairs(t, pairs).value[i] == t[i]
    decreases |pairs|
  {
    if |pairs| > 0 {
      var t1 := ApplyPair(t, pairs[0].0, pairs[0].1).value;
      ApplyPairsUntouched(t1, pairs[1..]);
      forall i | 0 <= i < |t| && !Mentions(pairs, t[i].userName)
        ensures i < |ApplyPairs(t, pairs).value| && ApplyPairs(t, pairs).value[i] == t[i]
      {
        MentionsTail(pairs, t[i].userName);
      }
    }
  }

  /** After a successful fold, every row named by some pair, and every row
      that already satisfied it, satisfies `count == recent - previous`. */
  lemma {:induction false} ApplyPairsConsistent(t: Table, pairs: seq<(string, Option<int>)>)
    ensures ApplyPairs(t, pairs).Success? ==>
      forall i :: 0 <= i < |t| && (Mentions(pairs, t[i].userName) || Consistent(t[i])) ==>
        i < |ApplyPairs(t, pairs).value| && Consistent(ApplyPairs(t, pairs).value[i])
    decreases |pairs|
  {
    ApplyPairsKeepsIdentity(t, pairs);
    if |pairs| > 0 && ApplyPairs(t, pairs).Success? {
      var t1 := ApplyPair(t, pairs[0].0, pairs[0].1).value;
      ApplyPairsConsistent(t1, pairs[1..]);
      forall i | 0 <= i < |t| && (Mentions(pairs, t[i].userName) || Consistent(t[i]))
        ensures Mentions(pairs[1..], t1[i].userName) || Consistent(t1[i])
      {
        MentionsTail(pairs, t[i].userName);
      }
    }
  }

  /** One step of a successful fold: the first pair succeeds and the rest
      of the fold starts from its table. */
  lemma ApplyPairsStep(t: Table, pairs: seq<(string, Option<int>)>, t2: Table) returns (t1: Table)
    requires |pairs| > 0 && ApplyPairs(t, pairs) == Success(t2)
    ensures ApplyPair(t, pairs[0].0, pairs[0].1) == Success(t1)
    ensures ApplyPairs(t1, pairs[1..]) == Success(t2)
  {
    t1 := ApplyPair(t, pairs[0].0, pairs[0].1).value;
  }

  /** A successful fold splits at any index into a successful fold of the
      prefix followed by a successful fold of the suffix. */
  lemma {:induction false} ApplyPairsSplit(t: Table, pairs: seq<(string, Option<int>)>,
                                           j: nat, t2: Table) returns (tm: Table)
    requires j <= |pairs| && ApplyPairs(t, pairs) == Success(t2)
    ensures ApplyPairs(t, pairs[..j]) == Success(tm)
    ensures ApplyPairs(tm, pairs[j..]) == Success(t2)
    decreases j
  {
    if j == 0 {
      tm := t;
      assert pairs[j..] == pairs;
    } else {
      var t1 := ApplyPairsStep(t, pairs, t2);
      tm := ApplyPairsSplit(t1, pairs[1..], j - 1, t2);
      ApplyPairsSplitStep(t, pairs, j, t1, tm, t2);
    }
  }

  /** The inductive step of `ApplyPairsSplit`: moving the first pair from
      the fold of the rest to the front of the prefix. */
  lemma ApplyPairsSplitStep(t: Table, pairs: seq<(string, Option<int>)>, j: nat,
                            t1: Table, tm: Table, t2: Table)
    requires 0 < j <= |pairs|
    requires ApplyPair(t, pairs[0].0, pairs[0].1) == Success(t1)
    requires ApplyPairs(t1, pairs[1..][..j - 1]) == Success(tm)
    requires ApplyPairs(tm, pairs[1..][j - 1..]) == Success(t2)
    ensures ApplyPairs(t, pairs[..j]) == Success(tm)
    ensures ApplyPairs(tm, pairs[j..]) == Success(t2)
  {
    assert pairs[1..][j - 1..] == pairs[j..];
    var prefix := pairs[..j];
    assert prefix[0] == pairs[0] && prefix[1..] == pairs[1..][..j - 1];
  }

  /** A fold that never names `u` leaves what `fetchone()` reads for `u`
      unchanged. */
  lemma ApplyPairsOtherUsers(t: Table, pairs: seq<(string, Option<int>)>, u: string, t2: Table)
    requires forall m :: 0 <= m < |pairs| ==> pairs[m].0 != u
    requires ApplyPairs(t, pairs) == Success(t2)
    ensures FetchRecent(t2, u) == FetchRecent(t, u)
  {
    ApplyPairsKeepsIdentity(t, pairs);
    ApplyPairsUntouched(t, pairs);
    FetchRecentUnchanged(t, t2, u);
  }

  /** The last pair for a username decides the final `recent` of all its
      rows, and those rows satisfy `count == recent - previous`. */
  lemma ApplyPairsLastWrite(t: Table, pairs: seq<(string, Option<int>)>, k: nat, t2: Table)
    requires k < |pairs|
    requires forall j :: k < j < |pairs| ==> pairs[j].0 != pairs[k].0
    requires ApplyPairs(t, pairs) == Success(t2)
    ensures forall i :: 0 <= i < |t2| && t2[i].userName == pairs[k].0 ==>
      t2[i].recent == pairs[k].1 && Consistent(t2[i])
  {
    var tm := ApplyPairsSplit(t, pairs, k, t2);
    var suffix := pairs[k..];
    assert suffix[0] == pairs[k];
    forall j | 0 < j < |suffix|
      ensures suffix[j].0 != suffix[0].0
    {
      assert suffix[j] == pairs[k + j];
    }
    ApplyPairsFirstWrite(tm, suffix, t2);
  }

  /** What `fetchone()` reads for `u` does not change while no row of `u`
      changes. */
  lemma FetchRecentUnchanged(t: Table, t1: Table, u: string)
    requires |t1| == |t|
    requires forall i :: 0 <= i < |t| ==> SameIdentity(t[i], t1[i])
    requires forall i :: 0 <= i < |t| && t[i].userName == u ==> t1[i] == t[i]
    ensures FetchRecent(t1, u) == FetchRecent(t, u)
  {
    Seqs.FindFirstAgrees(t, (row: Row) => row.userName == u, t1, (row: Row) => row.userName == u);
  }

  /** A username named by exactly one pair ends with `previous` equal to
      what `fetchone()` read for it before the run. */
  lemma ApplyPairsSingleWrite(t: Table, pairs: seq<(string, Option<int>)>, k: nat, t2: Table)
    requires k < |pairs|
    requires forall j :: 0 <= j < |pairs| && j != k ==> pairs[j].0 != pairs[k].0
    requires ApplyPairs(t, pairs) == Success(t2)
    ensures HasUser(t, pairs[k].0)
    ensures forall i :: 0 <= i < |t2| && t2[i].userName == pairs[k].0 ==>
      t2[i].previous == FetchRecent(t, pairs[k].0).value
  {
    var u := pairs[k].0;
    var tm := ApplyPairsSplit(t, pairs, k, t2);
    var prefix, suffix := pairs[..k], pairs[k..];
    forall m | 0 <= m < |prefix|
      ensures prefix[m].0 != u
    {
      assert prefix[m] == pairs[m];
    }
    ApplyPairsOtherUsers(t, prefix, u, tm);
    assert suffix[0] == pairs[k];
    forall j | 0 < j < |suffix|
      ensures suffix[j].0 != u
    {
      assert suffix[j] == pairs[k + j];
    }
    ApplyPairsFirstWrite(tm, suffix, t2);
  }

  /** The first pair, when no later pair names the same user, decides the
      final state of that user's rows: `previous` is what `fetchone()` read
      before the run, `recent` is the pair's score. */
  lemma ApplyPairsFirstWrite(t: Table, pairs: seq<(string, Option<int>)>, t2: Table)
    requires |pairs| > 0
    requires forall j :: 0 < j < |pairs| ==> pairs[j].0 != pairs[0].0
    requires ApplyPairs(t, pairs) == Success(t2)
    ensures HasUser(t, pairs[0].0)
    ensures forall i :: 0 <= i < |t2| && t2[i].userName == pairs[0].0 ==>
      && t2[i].previous == FetchRecent(t, pairs[0].0).value
      && t2[i].recent == pairs[0].1
      && Consistent(t2[i])
  {
    var u, rest := pairs[0].0, pairs[1..];
    var t1 := ApplyPairsStep(t, pairs, t2);
    ApplyPairsKeepsIdentity(t1, rest);
    forall j | 0 <= j < |rest|
      ensures rest[j].0 != u
    {
      assert rest[j] == pairs[j + 1];
    }
    ApplyPairsUntouched(t1, rest);
  }

  /** Duplicate usernames: the later pair reads the earlier pair's score as
      the current value, so the rows end with `previous` equal to the
      earlier new score. */
  lemma ApplyPairsSeesEarlierWrite(t: Table, pairs: seq<(string, Option<int>)>,
                                   j: nat, k: nat, t2: Table)
    requires j < k < |pairs|
    requires pairs[j].0 == pairs[k].0
    requires forall m :: j < m < |pairs| && m != k ==> pairs[m].0 != pairs[k].0
    requires ApplyPairs(t, pairs) == Success(t2)
    ensures forall i :: 0 <= i < |t2| && t2[i].userName == pairs[k].0 ==>
      t2[i].previous == pairs[j].1
  {
    var tm := ApplyPairsSplit(t, pairs, j, t2);
    SuffixRepeatsOnce(pairs, j, k);
    ApplyPairsRewrite(tm, pairs[j..], k - j, t2);
  }

  /** Index facts for `pairs[j..]` when `pairs[k]`'s user appears after `j`
      only at `k`. */
  lemma SuffixRepeatsOnce(pairs: seq<(string, Option<int>)>, j: nat, k: nat)
    requires j < k < |pairs|
    requires forall m :: j < m < |pairs| && m != k ==> pairs[m].0 != pairs[k].0
    ensures pairs[j..][0] == pairs[j] && pairs[j..][k - j] == pairs[k]
    ensures forall m :: 0 < m < |pairs[j..]| && m != k - j ==> pairs[j..][m].0 != pairs[k].0
  {
    forall m | 0 < m < |pairs[j..]| && m != k - j
      ensures pairs[j..][m].0 != pairs[k].0
    {
      assert pairs[j..][m] == pairs[j + m];
    }
  }

  lemma ApplyPairsRewrite(t: Table, pairs: seq<(string, Option<int>)>, k: nat, t2: Table)
    requires 0 < k < |pairs|
    requires pairs[0].0 == pairs[k].0
    requires forall m :: 0 < m < |pairs| && m != k ==> pairs[m].0 != pairs[k].0
    requires ApplyPairs(t, pairs) == Success(t2)
    ensures forall i :: 0 <= i < |t2| && t2[i].userName == pairs[k].0 ==>
      t2[i].previous == pairs[0].1
  {
    var u, rest := pairs[k].0, pairs[1..];
    var t1 := ApplyPairsStep(t, pairs, t2);
    TailRepeatsOnce(pairs, k);
    ApplyPairsSingleWrite(t1, rest, k - 1, t2);
    FetchRecentAfterWrite(t, u, pairs[0].1, t1);
  }

  /** Index facts for `pairs[1..]` when `pairs[k]`'s user appears after the
      first pair only at `k`. */
  lemma TailRepeatsOnce(pairs: seq<(string, Option<int>)>, k: nat)
    requires 0 < k < |pairs|
    requires forall m :: 0 < m < |pairs| && m != k ==> pairs[m].0 != pairs[k].0
    ensures pairs[1..][k - 1] == pairs[k]
    ensures forall m :: 0 <= m < |pairs| - 1 && m != k - 1 ==> pairs[1..][m].0 != pairs[k].0
  {
    forall m | 0 <= m < |pairs| - 1 && m != k - 1
      ensures pairs[1..][m].0 != pairs[k].0
    {
      assert pairs[1..][m] == pairs[m + 1];
    }
  }

  /** Right after the pair `(u, score)` is applied, `fetchone()` reads
      `score` for `u`. */
  lemma FetchRecentAfterWrite(t: Table, u: string, score: Option<int>, t1: Table)
    requires ApplyPair(t, u, score) == Success(t1)
    ensures FetchRecent(t1, u) == Some(score)
  {
    var f := Seqs.FindFirst(t1, (row: Row) => row.userName == u);
    assert f.Some?;
  }

  /** A pair whose score is None (a failed scrape) makes the fold fail. */
  lemma {:induction false} ApplyPairsNullScoreFails(t: Table, pairs: seq<(string, Option<int>)>, k: nat)
    requires k < |pairs| && pairs[k].1.None?
    ensures ApplyPairs(t, pairs).Failure?
    decreases |pairs|
  {
    var r := ApplyPair(t, pairs[0].0, pairs[0].1);
    if k == 0 {
      assert r.Failure?;
    } else if r.Success? {
      assert pairs[1..][k - 1] == pairs[k];
      ApplyPairsNullScoreFails(r.value, pairs[1..], k - 1);
      assert ApplyPairs(t, pairs) == ApplyPairs(r.value, pairs[1..]);
    }
  }

  /** A pair for a user whose `recent_week`, as `fetchone()` reads it before
      the run, is NULL makes the fold fail (`int(None)`): the first pair for
      that user still reads the NULL, since no earlier pair touches its
      rows. */
  lemma {:induction false} ApplyPairsNullRecentFails(t: Table, pairs: seq<(string, Option<int>)>, k: nat)
    requires k < |pairs|
    requires FetchRecent(t, pairs[k].0) == Some(None)
    ensures ApplyPairs(t, pairs).Failure?
    decreases k
  {
    if j :| 0 <= j < k && pairs[j].0 == pairs[k].0 {
      ApplyPairsNullRecentFails(t, pairs, j);
    } else {
      FirstPairNullRecentFails(t, pairs, k);
    }
  }

  /** The case of `ApplyPairsNullRecentFails` where `pairs[k]` is the first
      pair for its user. */
  lemma {:induction false} FirstPairNullRecentFails(t: Table, pairs: seq<(string, Option<int>)>,
                                                    k: nat)
    requires k < |pairs|
    requires FetchRecent(t, pairs[k].0) == Some(None)
    requires forall j :: 0 <= j < k ==> pairs[j].0 != pairs[k].0
    ensures ApplyPairs(t, pairs).Failure?
    decreases k
  {
    var u := pairs[k].0;
    var r := ApplyPair(t, pairs[0].0, pairs[0].1);
    if k == 0 {
      assert r.Failure?;
    } else if r.Success? {
      var t1 := r.value;
      FetchRecentUnchanged(t, t1, u);
      assert pairs[1..][k - 1] == pairs[k];
      forall j | 0 <= j < k - 1
        ensures pairs[1..][j].0 != u
      {
        assert pairs[1..][j] == pairs[j + 1];
      }
      FirstPairNullRecentFails(t1, pairs[1..], k - 1);
      assert ApplyPairs(t, pairs) == ApplyPairs(t1, pairs[1..]);
    }
  }

  /** When every pair names a row of the table, `fetchone()` always finds a
      row, since no update removes a row or renames it. */
  lemma {:induction false} ApplyPairsNeverMissing(t: Table, pairs: seq<(string, Option<int>)>)
    requires forall k :: 0 <= k < |pairs| ==> HasUser(t, pairs[k].0)
    ensures ApplyPairs(t, pairs) != Failure(MissingRow)
    decreases |pairs|
  {
    if |pairs| > 0 {
      var r := ApplyPair(t, pairs[0].0, pairs[0].1);
      if r.Success? {
        var t1 := r.value;
        forall k | 0 <= k < |pairs| - 1
          ensures HasUser(t1, pairs[1..][k].0)
        {
          assert pairs[1..][k] == pairs[k + 1];
          var i :| 0 <= i < |t| && t[i].userName == pairs[k + 1].0;
          assert t1[i].userName == t[i].userName;
        }
        ApplyPairsNeverMissing(t1, pairs[1..]);
      }
    }
  }

  /** A count between 0 and the largest 64-bit integer. */
  predicate SaneCount(s: Option<int>) {
    s.Some? && 0 <= s.value <= Int64Max
  }

  /** With sane stored counts, sane scraped counts and every pair naming a
      row, the fold succeeds. */
  lemma {:induction false} ApplyPairsSucceeds(t: Table, pairs: seq<(string, Option<int>)>)
    requires forall k :: 0 <= k < |pairs| ==> HasUser(t, pairs[k].0) && SaneCount(pairs[k].1)
    requires forall i :: 0 <= i < |t| ==> SaneCount(t[i].recent)
    ensures ApplyPairs(t, pairs).Success?
    decreases |pairs|
  {
    if |pairs| > 0 {
      var u := pairs[0].0;
      var k0 := Seqs.FindFirst(t, (row: Row) => row.userName == u);
      assert SaneCount(t[k0.value].recent);
      var r := ApplyPair(t, u, pairs[0].1);
      assert r.Success?;
      var t1 := r.value;
      forall k | 0 <= k < |pairs| - 1
        ensures HasUser(t1, pairs[1..][k].0) && SaneCount(pairs[1..][k].1)
      {
        assert pairs[1..][k] == pairs[k + 1];
        var i :| 0 <= i < |t| && t[i].userName == pairs[k + 1].0;
        assert t1[i].userName == t[i].userName;
      }
      assert forall i :: 0 <= i < |t1| ==> SaneCount(t1[i].recent);
      ApplyPairsSucceeds(t1, pairs[1..]);
    }
  }

  // ---------------------------------------------------------------------
  // Properties of a whole run
  // ---------------------------------------------------------------------

  /** An empty class answers 404 and calls no scraper: the outcome is the
      same whatever the scraper would have answered. */
  lemma EmptyClassNeedsNoScrape(db: Database, className: string,
                                count1: BatchScraper, count2: BatchScraper)
    requires TableKey(className) in db && |db[TableKey(className)]| == 0
    ensures UpdateScores(db, className, count1) == UpdateScores(db, className, count2)
    ensures UpdateScores(db, className, count1).reply == Failed(404, NoStudents)
  {
  }

  /** A None among the new scores (a failed scrape) makes the run answer 500
      and commit nothing. */
  lemma NullScoreAbortsRun(db: Database, className: string, count: BatchScraper, k: nat)
    requires TableKey(className) in db && k < |db[TableKey(className)]|
    requires k < |count(Usernames(db[TableKey(className)]))|
    requires count(Usernames(db[TableKey(className)]))[k].None?
    ensures UpdateScores(db, className, count).reply.Failed?
    ensures UpdateScores(db, className, count).reply.status == 500
    ensures UpdateScores(db, className, count).db == db
  {
    var t := db[TableKey(className)];
    ApplyPairsNullScoreFails(t, ClassPairs(t, count), k);
  }

  /** One failed request anywhere in the batch makes the run answer 500 and
      commit nothing. */
  lemma FailedFetchAbortsRun(db: Database, className: string, web: Scraper.Web, k: nat)
    requires TableKey(className) in db && k < |db[TableKey(className)]|
    requires web(k, db[TableKey(className)][k].userName).RequestFailed?
    ensures UpdateScores(db, className, Scraped(web)).reply.Failed?
    ensures UpdateScores(db, className, Scraped(web)).reply.status == 500
    ensures UpdateScores(db, className, Scraped(web)).db == db
  {
    ScrapedAligned(web, Usernames(db[TableKey(className)]));
    NullScoreAbortsRun(db, className, Scraped(web), k);
  }

  /** `fetchone()` reads the first row that has the username. */
  lemma FetchRecentFirstRow(t: Table, k: nat)
    requires k < |t|
    requires forall j :: 0 <= j < k ==> t[j].userName != t[k].userName
    ensures FetchRecent(t, t[k].userName) == Some(t[k].recent)
  {
    var f := Seqs.FindFirst(t, (row: Row) => row.userName == t[k].userName);
    assert f.Some?;
    assert f.value == k;
  }

  /** A NULL `recent_week` in the first row of a user whose new score was
      scraped makes the run answer 500 and commit nothing. */
  lemma NullRecentAbortsRun(db: Database, className: string, count: BatchScraper, k: nat)
    requires TableKey(className) in db && k < |db[TableKey(className)]|
    requires k < |count(Usernames(db[TableKey(className)]))|
    requires forall j :: 0 <= j < k ==>
      db[TableKey(className)][j].userName != db[TableKey(className)][k].userName
    requires db[TableKey(className)][k].recent.None?
    ensures UpdateScores(db, className, count).reply.Failed?
    ensures UpdateScores(db, className, count).reply.status == 500
    ensures UpdateScores(db, className, count).db == db
  {
    var t := db[TableKey(className)];
    var pairs := ClassPairs(t, count);
    FetchRecentFirstRow(t, k);
    assert pairs[k].0 == t[k].userName;
    ApplyPairsNullRecentFails(t, pairs, k);
  }

  /** Two spellings of a class name that differ only in the case of ASCII
      letters reach the same table (`TableKeySameIff`): the runs commit the
      same database and fail or succeed alike, the success message echoing
      the spelling of the request. */
  lemma ClassNameCaseIgnored(db: Database, a: string, b: string, count: BatchScraper)
    requires SameUpToAsciiCase(a, b)
    ensures UpdateScores(db, a, count).db == UpdateScores(db, b, count).db
    ensures UpdateScores(db, a, count).reply.Updated? == UpdateScores(db, b, count).reply.Updated?
    ensures UpdateScores(db, a, count).reply.Failed? ==>
      UpdateScores(db, a, count).reply == UpdateScores(db, b, count).reply
  {
    TableKeySameIff(a, b);
  }

  /** `/update/cse_a` reaches the table created as `CSE_A`. */
  lemma ExampleTableNameCase(t: Table, count: BatchScraper)
    ensures UpdateScores(map[TableKey("CSE_A") := t], "cse_a", count).reply != Failed(500, NoSuchTable)
  {
    assert TableKey("CSE_A") == "cse_a";
    assert TableKey("cse_a") == "cse_a";
  }

  /** A run succeeds when `count` is aligned, every new score and every
      stored `recent_week` is a count between 0 and the largest 64-bit
      integer, and the class is not empty. */
  lemma SaneRunSucceeds(db: Database, className: string, count: BatchScraper)
    requires TableKey(className) in db && |db[TableKey(className)]| > 0
    requires Aligned(count, Usernames(db[TableKey(className)]))
    requires forall i :: 0 <= i < |db[TableKey(className)]| ==>
      SaneCount(db[TableKey(className)][i].recent) && SaneCount(count(Usernames(db[TableKey(className)]))[i])
    ensures UpdateScores(db, className, count).reply == Updated(SuccessMessage(className))
  {
    var t := db[TableKey(className)];
    ClassPairsCover(t, count);
    ApplyPairsSucceeds(t, ClassPairs(t, count));
  }

  /** No two rows of the table share a username. */
  predicate DistinctUsers(t: Table) {
    forall i, j :: 0 <= i < j < |t| ==> t[i].userName != t[j].userName
  }

  /** With distinct usernames, `fetchone()` reads the row itself. */
  lemma FetchRecentDistinct(t: Table, i: nat)
    requires DistinctUsers(t) && i < |t|
    ensures FetchRecent(t, t[i].userName) == Some(t[i].recent)
  {
    var f := Seqs.FindFirst(t, (row: Row) => row.userName == t[i].userName);
    assert f.Some?;
    var k := f.value;
    assert t[k].userName == t[i].userName;
  }

  /** A fold whose pairs name the rows of a table with distinct usernames,
      one pair per row and in row order, updates every row from its own
      pair. */
  lemma ApplyPairsRowWise(t: Table, pairs: seq<(string, Option<int>)>, t2: Table)
    requires DistinctUsers(t) && |pairs| == |t|
    requires forall i :: 0 <= i < |t| ==> pairs[i].0 == t[i].userName
    requires ApplyPairs(t, pairs) == Success(t2)
    ensures |t2| == |t|
    ensures forall i :: 0 <= i < |t| ==>
      && SameIdentity(t[i], t2[i])
      && t2[i].previous == t[i].recent
      && t2[i].recent == pairs[i].1
      && Consistent(t2[i])
  {
    ApplyPairsKeepsIdentity(t, pairs);
    forall i | 0 <= i < |t|
      ensures t2[i].previous == t[i].recent && t2[i].recent == pairs[i].1 && Consistent(t2[i])
    {
      ApplyPairsSingleWrite(t, pairs, i, t2);
      ApplyPairsLastWrite(t, pairs, i, t2);
      FetchRecentDistinct(t, i);
    }
  }

  /** A successful run commits the folded class table. */
  lemma UpdatedClassTable(db: Database, className: string, count: BatchScraper)
    requires UpdateScores(db, className, count).reply.Updated?
    ensures TableKey(className) in db
    ensures ApplyPairs(db[TableKey(className)], ClassPairs(db[TableKey(className)], count)) ==
      Success(UpdateScores(db, className, count).db[TableKey(className)])
    ensures UpdateScores(db, className, count).db ==
      db[TableKey(className) := UpdateScores(db, className, count).db[TableKey(className)]]
  {
  }

  /** With distinct usernames and an aligned `count`, a successful run moves
      each row's old `recent_week` to `previous_week`, stores its new score
      as `recent_week`, and sets `count` to their difference. */
  lemma DistinctClassUpdate(db: Database, className: string, count: BatchScraper)
    requires TableKey(className) in db && DistinctUsers(db[TableKey(className)])
    requires Aligned(count, Usernames(db[TableKey(className)]))
    requires UpdateScores(db, className, count).reply.Updated?
    ensures TableKey(className) in UpdateScores(db, className, count).db
    ensures var t, t' := db[TableKey(className)], UpdateScores(db, className, count).db[TableKey(className)];
      |t'| == |t| &&
      forall i :: 0 <= i < |t| ==>
        && SameIdentity(t[i], t'[i])
        && t'[i].previous == t[i].recent
        && t'[i].recent == count(Usernames(t))[i]
        && Consistent(t'[i])
  {
    UpdatedClassTable(db, className, count);
    DistinctClassRows(db[TableKey(className)], count, UpdateScores(db, className, count).db[TableKey(className)]);
  }

  /** The fold of a run over a class with distinct usernames. */
  lemma DistinctClassRows(t: Table, count: BatchScraper, t2: Table)
    requires DistinctUsers(t) && Aligned(count, Usernames(t))
    requires ApplyPairs(t, ClassPairs(t, count)) == Success(t2)
    ensures |t2| == |t|
    ensures forall i :: 0 <= i < |t| ==>
      && SameIdentity(t[i], t2[i])
      && t2[i].previous == t[i].recent
      && t2[i].recent == count(Usernames(t))[i]
      && Consistent(t2[i])
  {
    ApplyPairsRowWise(t, ClassPairs(t, count), t2);
  }

  /** With the real scraper and distinct usernames, a successful run stores
      in each row the count scraped from that row's own request. */
  lemma ScrapedClassUpdate(db: Database, className: string, web: Scraper.Web)
    requires TableKey(className) in db && DistinctUsers(db[TableKey(className)])
    requires UpdateScores(db, className, Scraped(web)).reply.Updated?
    ensures TableKey(className) in UpdateScores(db, className, Scraped(web)).db
    ensures var t, t' := db[TableKey(className)], UpdateScores(db, className, Scraped(web)).db[TableKey(className)];
      |t'| == |t| &&
      forall i :: 0 <= i < |t| ==>
        && t'[i].previous == t[i].recent
        && t'[i].recent == Scraper.ProblemsSolved(web(i, t[i].userName))
  {
    ScrapedAligned(web, Usernames(db[TableKey(className)]));
    DistinctClassUpdate(db, className, Scraped(web));
  }

  /** The worked example, for any class, username and roll number: a
      student with previous 10, recent 15, count 5 whose new score is 20
      ends with previous 15, recent 20, count 5. */
  lemma WorkedExample(className: string, sNo: int, user: string, rollNo: string,
                      count: BatchScraper)
    requires count([user]) == [Some(20)]
    ensures var db := map[TableKey(className) := [Row(sNo, user, rollNo, Some(10), Some(15), Some(5))]];
      UpdateScores(db, className, count) ==
        Outcome(Updated(SuccessMessage(className)),
                map[TableKey(className) := [Row(sNo, user, rollNo, Some(15), Some(20), Some(5))]])
  {
    var before := Row(sNo, user, rollNo, Some(10), Some(15), Some(5));
    var db := map[TableKey(className) := [before]];
    assert Usernames(db[TableKey(className)]) == [user];
    SaneRunSucceeds(db, className, count);
    DistinctClassUpdate(db, className, count);
    var out := UpdateScores(db, className, count);
    var after := out.db[TableKey(className)][0];
    assert after == Row(sNo, user, rollNo, Some(15), Some(20), Some(5));
    assert out.db[TableKey(className)] == [after];
    assert out.db == map[TableKey(className) := [after]];
  }

  /** A profile page whose only `h3` reads `Problems Solved: n` gives the
      score n (within `int`'s digit limit), so the worked example holds for
      the real scraper. */
  lemma ScrapedRenderedPage(web: Scraper.Web, user: string, n: int)
    requires web(0, user) == Scraper.Fetched([Scraper.RenderedHeading(n)])
    ensures Scraped(web)([user]) == [Some(Scraper.DecimalReading(n))]
  {
    RenderedPageReads(web(0, user), n);
    ScrapedAligned(web, [user]);
  }

  lemma RenderedPageReads(fetch: Scraper.Fetch, n: int)
    requires fetch == Scraper.Fetched([Scraper.RenderedHeading(n)])
    ensures Scraper.ProblemsSolved(fetch) == Some(Scraper.DecimalReading(n))
  {
    Scraper.RenderedCountRoundTrip([], n, []);
    assert [] + [Scraper.RenderedHeading(n)] + [] == [Scraper.RenderedHeading(n)];
  }
}
