/**
 * The srsdb adapter of backend/srs_adapter.py.
 *
 * `srsdb.FsrsDatabase` is unseen: its `next` and `answer` enter as function
 * parameters acting on the tables of the user's file that the adapter itself
 * queries (`fsrs_cards`, `fsrs_reviews`) plus whatever else srsdb keeps there.
 * `datetime.fromisoformat` is unseen too and enters as a parameter.
 */
module SrsAdapter {
  import opened Wrappers
  import JsText

  /** Seconds since the epoch, UTC. */
  type Time = int
  type Key = string

  /** A row of `fsrs_reviews`, reduced to the two columns the adapter reads. */
  datatype ReviewRow = ReviewRow(questionKey: Key, reviewTime: string)

  /** The srsdb tables of one user's file. */
  datatype Store = Store(cardKeys: set<Key>, reviews: seq<ReviewRow>, other: map<Key, string>)

  /** A `datetime` value: wall-clock seconds and, if aware, its UTC offset in seconds. */
  datatype DateTime = DateTime(wall: Time, offset: Option<int>)

  /** SQLite's BINARY collation on text: lexicographic order of the characters. */
  predicate TextLess(a: string, b: string)
    decreases |a|
  {
    if a == [] then b != []
    else if b == [] then false
    else if a[0] != b[0] then a[0] < b[0]
    else TextLess(a[1..], b[1..])
  }

  lemma {:induction false} TextLessTotal(a: string, b: string)
    ensures a == b || TextLess(a, b) || TextLess(b, a)
    ensures !(TextLess(a, b) && TextLess(b, a))
    decreases |a|
  {
    if a != [] && b != [] && a[0] == b[0] {
      TextLessTotal(a[1..], b[1..]);
      if a[1..] == b[1..] {
        assert a == [a[0]] + a[1..] && b == [b[0]] + b[1..];
      }
    }
  }

  lemma {:induction false} TextLessTransitive(a: string, b: string, c: string)
    requires TextLess(a, b) && TextLess(b, c)
    ensures TextLess(a, c)
    decreases |a|
  {
    if a != [] && b != [] && c != [] && a[0] == b[0] && b[0] == c[0] {
      TextLessTransitive(a[1..], b[1..], c[1..]);
    }
  }

  /**
   * `SELECT MAX(review_time) FROM fsrs_reviews WHERE question_key = ?`:
   * nothing when the key has no review rows, otherwise the greatest review_time.
   */
  function LatestReviewTime(reviews: seq<ReviewRow>, key: Key): (r: Option<string>)
    ensures r.None? <==> forall i :: 0 <= i < |reviews| ==> reviews[i].questionKey != key
    ensures r.Some? ==> exists i :: 0 <= i < |reviews| && reviews[i].questionKey == key && reviews[i].reviewTime == r.value
    ensures r.Some? ==> forall i :: 0 <= i < |reviews| && reviews[i].questionKey == key ==>
      !TextLess(r.value, reviews[i].reviewTime)
  {
    if reviews == [] then None
    else
      var rest := LatestReviewTime(reviews[1..], key);
      var row := reviews[0];
      if row.questionKey != key then
        assert forall i :: 1 <= i < |reviews| ==> reviews[i] == reviews[1..][i - 1];
        rest
      else if rest.None? || TextLess(rest.value, row.reviewTime) then
        assert rest.Some? ==> forall i :: 1 <= i < |reviews| && reviews[i].questionKey == key ==>
          !TextLess(row.reviewTime, reviews[i].reviewTime) by {
          if rest.Some? {
            forall i | 1 <= i < |reviews| && reviews[i].questionKey == key
              ensures !TextLess(row.reviewTime, reviews[i].reviewTime)
            {
              assert reviews[i] == reviews[1..][i - 1];
              if TextLess(row.reviewTime, reviews[i].reviewTime) {
                TextLessTransitive(rest.value, row.reviewTime, reviews[i].reviewTime);
              }
            }
          }
        }
        TextLessTotal(row.reviewTime, row.reviewTime);
        Some(row.reviewTime)
      else
        assert forall i :: 1 <= i < |reviews| ==> reviews[i] == reviews[1..][i - 1];
        TextLessTotal(rest.value, row.reviewTime);
        rest
  }

  /** `last_review_str.replace('Z', '+00:00')`. */
  function NormaliseZulu(s: string): string {
    JsText.ReplaceAll(s, "Z", "+00:00")
  }

  /** The instant a parsed value denotes; a naive value is read as UTC. */
  function Instant(d: DateTime): Time {
    d.wall - d.offset.GetOr(0)
  }

  /**
   * The verdict of `is_busy` on the result of its query: false with no review
   * row, false when the text does not parse, else whether the latest review is
   * strictly later than `now - minutes`.
   */
  function BusyVerdict(latest: Option<string>, parse: string -> Option<DateTime>, now: Time, minutes: int): (busy: bool)
    ensures latest.None? ==> !busy
    ensures latest.Some? && parse(NormaliseZulu(latest.value)).None? ==> !busy
    ensures latest.Some? && parse(NormaliseZulu(latest.value)).Some? ==>
      (busy <==> Instant(parse(NormaliseZulu(latest.value)).value) > now - minutes * 60)
  {
    match latest
    case None => false
    case Some(text) =>
      match parse(NormaliseZulu(text))
      case None => false
      case Some(d) => Instant(d) > now - minutes * 60
  }

  /** A text without 'Z' reaches the parser unchanged. */
  lemma NormaliseWithoutZulu(s: string)
    requires 'Z' !in s
    ensures NormaliseZulu(s) == s
  {
    NoZuluNotContained(s);
    JsText.ReplaceAllAbsent(s, "Z", "+00:00");
  }

  lemma {:induction false} NoZuluNotContained(s: string)
    requires 'Z' !in s
    ensures !JsText.Contains(s, "Z")
  {
    if s != [] {
      assert s[0] != 'Z';
      NoZuluNotContained(s[1..]);
    }
  }

  /** The adapter's handle on `srsdb.FsrsDatabase(path)`. */
  class SrsDatabase {
    const path: string
    constructor (path: string)
      ensures this.path == path
    {
      this.path := path;
    }
  }

  /** Correctness sent to srsdb for a valid 0..3 score. */
  function CorrectnessFor(score: int): (c: Option<int>)
    ensures c.Some? <==> 0 <= score <= 3
    ensures c.Some? ==> c.value == [0, 40, 70, 100][score]
  {
    if score == 0 then Some(0)
    else if score == 1 then Some(40)
    else if score == 2 then Some(70)
    else if score == 3 then Some(100)
    else None
  }

  /** Better scores are sent as higher correctness, and skips (50) sit between Hard and Good. */
  lemma CorrectnessOrder(s1: int, s2: int)
    requires 0 <= s1 < s2 <= 3
    ensures CorrectnessFor(s1).value < CorrectnessFor(s2).value
    ensures CorrectnessFor(1).value < BuryCorrectness < CorrectnessFor(2).value
  {
  }

  /** The neutral correctness `bury_card` records. */
  const BuryCorrectness: int := 50

  datatype Error = InvalidScore(score: int)   // ValueError

  class FsrsSQLiteScheduler {
    const dbPath: string
    /** `self._db`, created on first use. */
    var db: SrsDatabase?
    /** The user's file, as srsdb keeps it. */
    var store: Store
    /** `FsrsDatabase.next(now)`: the keys srsdb considers due. */
    const next: (Store, Time) -> seq<Key>
    /** `FsrsDatabase.answer(now, key, correct)`. */
    const answer: (Store, Time, Key, int) -> Store
    /** `datetime.fromisoformat`; `None` stands for ValueError. */
    const parse: string -> Option<DateTime>

    constructor (dbPath: string, store: Store,
                 next: (Store, Time) -> seq<Key>,
                 answer: (Store, Time, Key, int) -> Store,
                 parse: string -> Option<DateTime>)
      ensures this.dbPath == dbPath && db == null && this.store == store
      ensures this.next == next && this.answer == answer && this.parse == parse
    {
      this.dbPath := dbPath;
      this.db := null;
      this.store := store;
      this.next := next;
      this.answer := answer;
      this.parse := parse;
    }

    /** `_get_db`: create the database object on first call, return the same one afterwards. */
    method GetDb() returns (d: SrsDatabase)
      modifies this`db
      ensures old(db) != null ==> d == old(db)
      ensures old(db) == null ==> fresh(d) && d.path == dbPath
      ensures db == d
    {
      if db == null {
        db := new SrsDatabase(dbPath);
      }
      d := db;
    }

    /** `has_card`: whether `fsrs_cards` holds a row for the key. */
    method HasCard(key: Key) returns (found: bool)
      ensures found <==> key in store.cardKeys
    {
      found := key in store.cardKeys;
    }

    /** `get_next_question`: the first key srsdb reports due, or nothing for an empty list. */
    method GetNextQuestion(now: Time) returns (k: Option<Key>)
      modifies this`db
      ensures db != null && (old(db) != null ==> db == old(db))
      ensures next(store, now) == [] ==> k.None?
      ensures next(store, now) != [] ==> k == Some(next(store, now)[0])
    {
      var d := GetDb();
      var due := next(store, now);
      if due != [] {
        return Some(due[0]);
      }
      return None;
    }

    /** `bury_card`: a neutral answer of 50 now; `minutes` takes no part. */
    method BuryCard(key: Key, minutes: int, now: Time)
      modifies this`db, this`store
      ensures db != null && (old(db) != null ==> db == old(db))
      ensures store == answer(old(store), now, key, BuryCorrectness)
    {
      var d := GetDb();
      store := answer(store, now, key, BuryCorrectness);
    }

    /** `is_busy`: whether the key's latest review lies within the last `minutes`. */
    method IsBusy(key: Key, minutes: int, now: Time) returns (busy: bool)
      ensures busy == BusyVerdict(LatestReviewTime(store.reviews, key), parse, now, minutes)
      ensures (forall i :: 0 <= i < |store.reviews| ==> store.reviews[i].questionKey != key) ==> !busy
    {
      var latest := LatestReviewTime(store.reviews, key);
      if latest.None? {
        return false;
      }
      var parsed := parse(NormaliseZulu(latest.value));
      if parsed.None? {
        return false;
      }
      var cutoff := now - minutes * 60;
      busy := Instant(parsed.value) > cutoff;
    }

    /**
     * `record_answer`: a score outside 0..3 raises without touching the database;
     * a valid one is sent to srsdb as its correctness, stamped with `now`.
     */
    method RecordAnswer(key: Key, score: int, now: Time) returns (err: Option<Error>)
      modifies this`db, this`store
      ensures CorrectnessFor(score).None? ==> err == Some(InvalidScore(score)) && unchanged(this)
      ensures CorrectnessFor(score).Some? ==>
        && err.None?
        && db != null && (old(db) != null ==> db == old(db))
        && store == answer(old(store), now, key, CorrectnessFor(score).value)
    {
      if !(0 <= score <= 3) {
        return Some(InvalidScore(score));
      }
      var correctness := CorrectnessFor(score).value;
      var d := GetDb();
      store := answer(store, now, key, correctness);
      err := None;
    }
  }
}
