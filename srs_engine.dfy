/**
 * The per-user FSRS store of backend/srs_engine.py.
 *
 * The SQLite file becomes three fields: the card table as a map keyed by
 * question key (its PRIMARY KEY), the review-log table as a sequence in row-id
 * order, and the singleton scheduler row (id = 1). ISO timestamps become
 * integer seconds. The FSRS library (`Scheduler.review_card`, the `Optimizer`)
 * is unseen and enters as two function parameters; the clock enters as the
 * `now` argument of each operation.
 */
module SrsEngine {
  import opened Wrappers

  /** Seconds since the epoch, UTC. */
  type Time = int
  type Key = string

  /** FSRS ratings; their integer value (`int(rating)`) is 1..4. */
  datatype Rating = Again | Hard | Good | Easy {
    function Value(): int {
      match this
      case Again => 1
      case Hard => 2
      case Good => 3
      case Easy => 4
    }
  }

  /** `RATING_MAP`: the caller's 0..3 score to an FSRS rating; `None` for a key the map lacks. */
  function RatingFor(score: int): (r: Option<Rating>)
    ensures r.Some? <==> 0 <= score <= 3
    ensures r.Some? ==> r.value.Value() == score + 1
  {
    if score == 0 then Some(Again)
    else if score == 1 then Some(Hard)
    else if score == 2 then Some(Good)
    else if score == 3 then Some(Easy)
    else None
  }

  /** A higher score never maps to a lower rating, and distinct scores to distinct ratings. */
  lemma RatingForOrder(s1: int, s2: int)
    requires 0 <= s1 < s2 <= 3
    ensures RatingFor(s1).value.Value() < RatingFor(s2).value.Value()
    ensures RatingFor(s1) != RatingFor(s2)
  {
  }

  datatype CardState = Learning | Review | Relearning

  /** An FSRS card as the library serialises it (card_json). */
  datatype Card = Card(
    state: CardState,
    step: Option<nat>,
    stability: Option<real>,
    difficulty: Option<real>,
    due: Time,
    lastReview: Option<Time>)

  /** `Card()`: a card in its first learning step, due at the moment it is created. */
  function NewCard(now: Time): (c: Card)
    ensures c.due == now && c.lastReview.None? && c.state == Learning
  {
    Card(Learning, Some(0), None, None, now, None)
  }

  /** An FSRS review log as the library serialises it (review_json). */
  datatype ReviewLog = ReviewLog(rating: Rating, reviewDatetime: Time, reviewDuration: Option<int>)

  /** The FSRS scheduler settings (scheduler_json); steps and intervals in seconds. */
  datatype Scheduler = Scheduler(
    parameters: seq<real>,
    desiredRetention: real,
    learningSteps: seq<int>,
    relearningSteps: seq<int>,
    maximumInterval: int,
    enableFuzzing: bool)

  /** A row of the `cards` table. */
  datatype CardRow = CardRow(card: Card, due: Time, createdAt: Time, updatedAt: Time, active: bool)

  /** A row of the `review_logs` table. */
  datatype LogRow = LogRow(id: nat, key: Key, review: ReviewLog, rating: int, reviewedAt: Time)

  /** The single row of the `scheduler` table. */
  datatype SchedulerRow = SchedulerRow(scheduler: Scheduler, lastOptimizedAt: Option<Time>)

  /** The contents of a user's database file; `lastLogId` is the AUTOINCREMENT counter. */
  datatype Database = Database(
    scheduler: Option<SchedulerRow>,
    cards: map<Key, CardRow>,
    logs: seq<LogRow>,
    lastLogId: nat)

  datatype Error =
    | InvalidScore(score: int)   // ValueError
    | IntegrityError(key: Key)   // a second row for a PRIMARY KEY

  /** Row ids are positive, strictly increasing in table order and not above the counter. */
  ghost predicate LogIdsValid(logs: seq<LogRow>, lastLogId: nat) {
    (forall i, j :: 0 <= i < j < |logs| ==> logs[i].id < logs[j].id) &&
    (forall i :: 0 <= i < |logs| ==> 1 <= logs[i].id <= lastLogId)
  }

  /**
   * Every review log refers to a stored card. The schema declares this as a
   * foreign key, but SQLite checks it only after `PRAGMA foreign_keys = ON`,
   * which the backend never issues; it holds because this class never deletes
   * a card and logs an answer only after ensuring its card.
   */
  ghost predicate LogsReferToCards(logs: seq<LogRow>, cards: map<Key, CardRow>) {
    forall i :: 0 <= i < |logs| ==> logs[i].key in cards
  }

  /** The review_json column, in row-id order. */
  function Reviews(logs: seq<LogRow>): (r: seq<ReviewLog>)
    ensures |r| == |logs| && forall i :: 0 <= i < |logs| ==> r[i] == logs[i].review
  {
    if logs == [] then [] else [logs[0].review] + Reviews(logs[1..])
  }

  /** A card that `get_next_question` may return at `now`. */
  predicate IsDue(row: CardRow, now: Time) {
    row.active && row.due <= now
  }

  /** An FSRS capability that records, in its log, the rating it was given. */
  ghost predicate RecordsRating(review: (Scheduler, Card, Rating, Time) -> (Card, ReviewLog)) {
    forall s, c, r, t :: review(s, c, r, t).1.rating == r
  }

  class FsrsSQLiteScheduler {
    var cards: map<Key, CardRow>
    var logs: seq<LogRow>
    var lastLogId: nat
    var schedulerRow: SchedulerRow
    /** `self._scheduler`, the in-memory copy of the stored scheduler. */
    var scheduler: Scheduler
    /** `Scheduler.review_card(card, rating)` at a given time. */
    const review: (Scheduler, Card, Rating, Time) -> (Card, ReviewLog)
    /** `Optimizer(review_logs).compute_optimal_parameters()`. */
    const optimize: seq<ReviewLog> -> seq<real>

    /** The invariants this class's writes keep, and the cached scheduler agreeing with its row. */
    ghost predicate Valid()
      reads this
    {
      scheduler == schedulerRow.scheduler &&
      LogIdsValid(logs, lastLogId) &&
      LogsReferToCards(logs, cards)
    }

    /**
     * `__init__`: open the file, ensure the schema, then load the scheduler row
     * or insert one holding the FSRS defaults (`Scheduler()`) if there is none.
     * The file is assumed to be one this class wrote, so its logs keep the
     * invariants of `Valid`.
     */
    constructor (stored: Database, defaults: Scheduler,
                 review: (Scheduler, Card, Rating, Time) -> (Card, ReviewLog),
                 optimize: seq<ReviewLog> -> seq<real>)
      requires LogIdsValid(stored.logs, stored.lastLogId)
      requires LogsReferToCards(stored.logs, stored.cards)
      ensures Valid()
      ensures stored.scheduler.Some? ==> schedulerRow == stored.scheduler.value
      ensures stored.scheduler.None? ==> schedulerRow == SchedulerRow(defaults, None)
      ensures cards == stored.cards && logs == stored.logs && lastLogId == stored.lastLogId
      ensures this.review == review && this.optimize == optimize
    {
      this.review := review;
      this.optimize := optimize;
      cards := stored.cards;
      logs := stored.logs;
      lastLogId := stored.lastLogId;
      var row := LoadOrInitScheduler(stored.scheduler, defaults);
      schedulerRow := row;
      scheduler := row.scheduler;
    }

    /** `_load_or_init_scheduler`: the stored row if there is one, else a fresh row with defaults. */
    static method LoadOrInitScheduler(stored: Option<SchedulerRow>, defaults: Scheduler) returns (row: SchedulerRow)
      ensures stored.Some? ==> row == stored.value
      ensures stored.None? ==> row.scheduler == defaults && row.lastOptimizedAt.None?
    {
      if stored.None? {
        row := SchedulerRow(defaults, None);
      } else {
        row := stored.value;
      }
    }

    /** `_save_scheduler`: write the cached scheduler to its row, stamped with the time. */
    method SaveScheduler(now: Time)
      modifies this`schedulerRow
      ensures schedulerRow == SchedulerRow(scheduler, Some(now))
    {
      schedulerRow := SchedulerRow(scheduler, Some(now));
    }

    /** `_load_card`: the card of an active row, or nothing. */
    method LoadCard(key: Key) returns (c: Option<Card>)
      ensures c.Some? <==> key in cards && cards[key].active
      ensures c.Some? ==> c.value == cards[key].card
    {
      if key in cards && cards[key].active {
        c := Some(cards[key].card);
      } else {
        c := None;
      }
    }

    /** `_insert_card`: a new active row; the PRIMARY KEY refuses a second row for a key. */
    method InsertCard(key: Key, card: Card, now: Time) returns (err: Option<Error>)
      modifies this`cards
      ensures key in old(cards) ==> err == Some(IntegrityError(key)) && cards == old(cards)
      ensures key !in old(cards) ==>
        err.None? && cards == old(cards)[key := CardRow(card, card.due, now, now, true)]
    {
      if key in cards {
        err := Some(IntegrityError(key));
      } else {
        cards := cards[key := CardRow(card, card.due, now, now, true)];
        err := None;
      }
    }

    /** `_update_card`: rewrite card_json, due and updated_at of the row with this key, if any. */
    method UpdateCard(key: Key, card: Card, now: Time)
      modifies this`cards
      ensures key in old(cards) ==>
        cards == old(cards)[key := old(cards)[key].(card := card, due := card.due, updatedAt := now)]
      ensures key !in old(cards) ==> cards == old(cards)
    {
      if key in cards {
        cards := cards[key := cards[key].(card := card, due := card.due, updatedAt := now)];
      }
    }

    /**
     * `_ensure_card`: the stored active card, or a new card inserted for the key.
     * An inactive row makes the insertion fail.
     */
    method EnsureCard(key: Key, now: Time) returns (r: Result<Card, Error>)
      requires Valid()
      modifies this`cards
      ensures Valid()
      ensures key in old(cards) && old(cards)[key].active ==>
        r == Success(old(cards)[key].card) && cards == old(cards)
      ensures key in old(cards) && !old(cards)[key].active ==>
        r == Failure(IntegrityError(key)) && cards == old(cards)
      ensures key !in old(cards) ==>
        r == Success(NewCard(now)) && cards == old(cards)[key := CardRow(NewCard(now), now, now, now, true)]
      ensures r.Success? ==> key in cards && cards[key].active
    {
      var loaded := LoadCard(key);
      if loaded.Some? {
        return Success(loaded.value);
      }
      var card := NewCard(now);
      var err := InsertCard(key, card, now);
      if err.Some? {
        return Failure(err.value);
      }
      r := Success(card);
    }

    /**
     * `get_next_question`: the key of an active card due at `now` whose due time is
     * the earliest among such cards, or nothing when no active card is due.
     */
    method GetNextQuestion(now: Time) returns (k: Option<Key>)
      ensures k.None? <==> forall key :: key in cards ==> !IsDue(cards[key], now)
      ensures k.Some? ==> k.value in cards && IsDue(cards[k.value], now)
      ensures k.Some? ==> forall key :: key in cards && IsDue(cards[key], now) ==>
        cards[k.value].due <= cards[key].due
    {
      var remaining := cards.Keys;
      k := None;
      while remaining != {}
        invariant remaining <= cards.Keys
        invariant k.None? ==> forall key :: key in cards && key !in remaining ==> !IsDue(cards[key], now)
        invariant k.Some? ==> k.value in cards && IsDue(cards[k.value], now)
        invariant k.Some? ==> forall key :: key in cards && key !in remaining && IsDue(cards[key], now) ==>
          cards[k.value].due <= cards[key].due
        decreases remaining
      {
        var key :| key in remaining;
        if IsDue(cards[key], now) && (k.None? || cards[key].due < cards[k.value].due) {
          k := Some(key);
        }
        remaining := remaining - {key};
      }
    }

    /**
     * `record_answer`: a score outside 0..3 raises before anything is touched.
     * Otherwise the card is ensured, reviewed by FSRS, written back, and exactly one
     * review log carrying the key is appended; nothing else changes.
     */
    method RecordAnswer(key: Key, score: int, now: Time) returns (err: Option<Error>)
      requires Valid()
      modifies this
      ensures Valid()
      ensures RatingFor(score).None? ==>
        err == Some(InvalidScore(score)) && unchanged(this)
      ensures RatingFor(score).Some? && key in old(cards) && !old(cards)[key].active ==>
        err == Some(IntegrityError(key)) && unchanged(this)
      ensures RatingFor(score).Some? && !(key in old(cards) && !old(cards)[key].active) ==>
        var row := if key in old(cards) then old(cards)[key]
                   else CardRow(NewCard(now), now, now, now, true);
        var outcome := review(scheduler, row.card, RatingFor(score).value, now);
        && err.None?
        && cards == old(cards)[key := row.(card := outcome.0, due := outcome.0.due, updatedAt := now)]
        && logs == old(logs) + [LogRow(old(lastLogId) + 1, key, outcome.1, outcome.1.rating.Value(), outcome.1.reviewDatetime)]
        && lastLogId == old(lastLogId) + 1
        && scheduler == old(scheduler) && schedulerRow == old(schedulerRow)
      ensures err.None? && RecordsRating(review) ==>
        |logs| > 0 && logs[|logs| - 1].key == key && logs[|logs| - 1].rating == score + 1
    {
      var rating := RatingFor(score);
      if rating.None? {
        return Some(InvalidScore(score));
      }
      var ensured := EnsureCard(key, now);
      if ensured.Failure? {
        return Some(ensured.error);
      }
      var outcome := review(scheduler, ensured.value, rating.value, now);
      UpdateCard(key, outcome.0, now);
      lastLogId := lastLogId + 1;
      logs := logs + [LogRow(lastLogId, key, outcome.1, outcome.1.rating.Value(), outcome.1.reviewDatetime)];
      err := None;
    }

    /**
     * `optimize_scheduler`: nothing happens without review logs. Otherwise the
     * FSRS parameters are refitted from all logs in row order, every other
     * scheduler setting is kept, and the row is saved with the time of optimisation.
     */
    method OptimizeScheduler(now: Time)
      requires Valid()
      modifies this
      ensures Valid()
      ensures old(logs) == [] ==> unchanged(this)
      ensures old(logs) != [] ==>
        && scheduler == old(scheduler).(parameters := optimize(Reviews(old(logs))))
        && schedulerRow == SchedulerRow(scheduler, Some(now))
      ensures cards == old(cards) && logs == old(logs) && lastLogId == old(lastLogId)
    {
      if logs == [] {
        return;
      }
      var optimal := optimize(Reviews(logs));
      scheduler := Scheduler(optimal, scheduler.desiredRetention, scheduler.learningSteps,
                             scheduler.relearningSteps, scheduler.maximumInterval, scheduler.enableFuzzing);
      SaveScheduler(now);
    }

    /** What the file holds, as the next `__init__` on it would find it. */
    function Stored(): (db: Database)
      reads this
      ensures db.scheduler == Some(schedulerRow) && db.cards == cards && db.logs == logs
    {
      Database(Some(schedulerRow), cards, logs, lastLogId)
    }
  }

  /** Reopening a file loads its scheduler row instead of the defaults, and keeps the tables. */
  method Reopen(e: FsrsSQLiteScheduler, defaults: Scheduler) returns (e2: FsrsSQLiteScheduler)
    requires e.Valid()
    ensures e2.schedulerRow == e.schedulerRow && e2.scheduler == e.scheduler
    ensures e2.cards == e.cards && e2.logs == e.logs && e2.lastLogId == e.lastLogId
  {
    e2 := new FsrsSQLiteScheduler(e.Stored(), defaults, e.review, e.optimize);
  }
}
