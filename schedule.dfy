/** The schedule page's logic: rows of the schedule sheet become games, games get their point in
    time, and the dated games are split into upcoming (soonest first) and past (latest first).
    The current moment and the runtime's own date-string parser are parameters. */
module Schedule {
  import opened Options
  import opened Csv
  import opened Records
  import opened Dates
  import opened Text

  /** A game as the page uses it: five text fields, never missing. */
  datatype Game = Game(date: string, time: string, opponent: string, location: string, result: string)

  /** The header spellings accepted for each field, in the order they are tried. */
  const DateKeys: seq<string> := ["Date", "date", "Ημερομηνία"]
  const TimeKeys: seq<string> := ["Time", "time", "Ώρα"]
  const OpponentKeys: seq<string> := ["Opponent", "opponent", "Αντίπαλος"]
  const LocationKeys: seq<string> := ["Location", "location", "Γήπεδο"]
  const ResultKeys: seq<string> := ["Result", "result", "Αποτέλεσμα"]

  /** One row of the schedule sheet as a game: each field is the value under its first filled
      header spelling, or "". */
  function MapGame(r: Record): (g: Game)
    ensures IsFirstFilled(r, DateKeys, g.date) && IsFirstFilled(r, TimeKeys, g.time)
    ensures IsFirstFilled(r, OpponentKeys, g.opponent) && IsFirstFilled(r, LocationKeys, g.location)
    ensures IsFirstFilled(r, ResultKeys, g.result)
  {
    Game(FirstFilled(r, DateKeys), FirstFilled(r, TimeKeys), FirstFilled(r, OpponentKeys),
         FirstFilled(r, LocationKeys), FirstFilled(r, ResultKeys))
  }

  /** `rows.map(...)`: one game per row, in row order. */
  function MapGames(rows: seq<Record>): (games: seq<Game>)
    ensures |games| == |rows|
    ensures forall i :: 0 <= i < |rows| ==> games[i] == MapGame(rows[i])
  {
    if rows == [] then [] else [MapGame(rows[0])] + MapGames(rows[1..])
  }

  /** The fields of a mapped game, spelled out: `Key`, else `key`, else the Greek header,
      else "". */
  lemma GameFields(r: Record)
    ensures MapGame(r).date ==
      if HasValue(r, "Date") then r["Date"] else if HasValue(r, "date") then r["date"]
      else if HasValue(r, "Ημερομηνία") then r["Ημερομηνία"] else ""
    ensures MapGame(r).time ==
      if HasValue(r, "Time") then r["Time"] else if HasValue(r, "time") then r["time"]
      else if HasValue(r, "Ώρα") then r["Ώρα"] else ""
    ensures MapGame(r).opponent ==
      if HasValue(r, "Opponent") then r["Opponent"] else if HasValue(r, "opponent") then r["opponent"]
      else if HasValue(r, "Αντίπαλος") then r["Αντίπαλος"] else ""
    ensures MapGame(r).location ==
      if HasValue(r, "Location") then r["Location"] else if HasValue(r, "location") then r["location"]
      else if HasValue(r, "Γήπεδο") then r["Γήπεδο"] else ""
    ensures MapGame(r).result ==
      if HasValue(r, "Result") then r["Result"] else if HasValue(r, "result") then r["result"]
      else if HasValue(r, "Αποτέλεσμα") then r["Αποτέλεσμα"] else ""
  {
    FirstFilledOfThree(r, "Date", "date", "Ημερομηνία");
    FirstFilledOfThree(r, "Time", "time", "Ώρα");
    FirstFilledOfThree(r, "Opponent", "opponent", "Αντίπαλος");
    FirstFilledOfThree(r, "Location", "location", "Γήπεδο");
    FirstFilledOfThree(r, "Result", "result", "Αποτέλεσμα");
  }

  // ---------------------------------------------------------------------------------------
  // Points in time

  /** What the original reads from its surroundings: the current moment (whose year also serves
      as the current year of the date patterns) and the runtime's `new Date(s)` parser. */
  datatype Environment = Environment(now: DateTime, fallback: Interpreter)

  /** `gameDate`: the point in time of a game's date and time cells. */
  function GameDate(g: Game, env: Environment): (r: Option<DateTime>) {
    ParseDate(g.date, g.time, env.now.year, env.fallback)
  }

  /** A game whose date field is blank has no point in time. */
  lemma GameDateNeedsDate(g: Game, env: Environment)
    ensures Trim(g.date) == [] ==> GameDate(g, env).None?
  {
  }

  /** `{ ...g, _dt: d }`: a game together with its point in time. */
  datatype Dated = Dated(game: Game, dt: DateTime)

  /** `rows.map(g => ({ g, d: gameDate(g) })).filter(x => x.d)`: the games whose date can be
      read, in input order, each with its point in time. */
  function WithDates(games: seq<Game>, env: Environment): (ds: seq<Dated>)
    ensures |ds| <= |games|
    ensures forall k :: 0 <= k < |ds| ==> ds[k].game in games && GameDate(ds[k].game, env) == Some(ds[k].dt)
  {
    if games == [] then []
    else
      var rest := WithDates(games[1..], env);
      match GameDate(games[0], env)
      case None => rest
      case Some(d) => [Dated(games[0], d)] + rest
  }

  /** Every game whose date can be read is there with its point in time, and no other entry. */
  lemma {:induction false} WithDatesMembers(games: seq<Game>, env: Environment, e: Dated)
    ensures e in WithDates(games, env) <==> e.game in games && GameDate(e.game, env) == Some(e.dt)
  {
    if games != [] {
      WithDatesMembers(games[1..], env, e);
      assert games == [games[0]] + games[1..];
    }
  }

  // ---------------------------------------------------------------------------------------
  // Filtering around now

  /** `x.d >= now` for the upcoming side, `x.d < now` for the past side. */
  predicate OnSide(e: Dated, now: DateTime, upcoming: bool) {
    if upcoming then NotAfter(now, e.dt) else Before(e.dt, now)
  }

  /** `.filter(...)` on one side of now, keeping the order. */
  function Keep(xs: seq<Dated>, now: DateTime, upcoming: bool): (ys: seq<Dated>)
    ensures forall k :: 0 <= k < |ys| ==> OnSide(ys[k], now, upcoming)
    ensures multiset(ys) <= multiset(xs)
  {
    if xs == [] then []
    else
      var rest := Keep(xs[1..], now, upcoming);
      assert xs == [xs[0]] + xs[1..];
      if OnSide(xs[0], now, upcoming) then [xs[0]] + rest else rest
  }

  /** The two sides split the entries: each entry is on exactly one side, as often as it occurs. */
  lemma {:induction false} KeepPartition(xs: seq<Dated>, now: DateTime)
    ensures multiset(Keep(xs, now, true)) + multiset(Keep(xs, now, false)) == multiset(xs)
  {
    if xs != [] {
      KeepPartition(xs[1..], now);
      assert xs == [xs[0]] + xs[1..];
    }
  }

  // ---------------------------------------------------------------------------------------
  // Sorting

  /** The comparator `a.d - b.d` (ascending) or `b.d - a.d` (descending) is negative. */
  predicate Precedes(a: Dated, b: Dated, ascending: bool) {
    if ascending then Before(a.dt, b.dt) else Before(b.dt, a.dt)
  }

  /** No entry is preceded by a later one. */
  predicate Sorted(ys: seq<Dated>, ascending: bool) {
    forall i, j :: 0 <= i < j < |ys| ==> !Precedes(ys[j], ys[i], ascending)
  }

  /** x put in front of the first entry it does not come strictly after. */
  function Insert(x: Dated, ys: seq<Dated>, ascending: bool): (r: seq<Dated>) {
    if ys == [] || !Precedes(ys[0], x, ascending) then [x] + ys
    else [ys[0]] + Insert(x, ys[1..], ascending)
  }

  /** `.sort(comparator)`: a stable sort, here insertion from the back. */
  function Sort(xs: seq<Dated>, ascending: bool): (r: seq<Dated>) {
    if xs == [] then [] else Insert(xs[0], Sort(xs[1..], ascending), ascending)
  }

  /** The comparator is a strict weak order, since the order of points in time is total. */
  lemma PrecedesOrder(a: Dated, b: Dated, c: Dated, ascending: bool)
    ensures Precedes(a, b, ascending) ==> !Precedes(b, a, ascending)
    ensures !Precedes(a, b, ascending) && !Precedes(b, c, ascending) ==> !Precedes(a, c, ascending)
    ensures Precedes(a, b, ascending) && !Precedes(c, b, ascending) ==> Precedes(a, c, ascending)
  {
    NotAfterIsTotalOrder(a.dt, b.dt, c.dt);
    NotAfterIsTotalOrder(c.dt, b.dt, a.dt);
    NotAfterIsTotalOrder(b.dt, c.dt, a.dt);
    NotAfterIsTotalOrder(c.dt, a.dt, b.dt);
  }

  /** Inserting adds exactly the one entry. */
  lemma {:induction false} InsertPermutation(x: Dated, ys: seq<Dated>, ascending: bool)
    ensures multiset(Insert(x, ys, ascending)) == multiset{x} + multiset(ys)
  {
    if !(ys == [] || !Precedes(ys[0], x, ascending)) {
      InsertPermutation(x, ys[1..], ascending);
      assert ys == [ys[0]] + ys[1..];
    }
  }

  /** A sorted list stays sorted when an entry that no entry of it precedes goes in front. */
  lemma SortedCons(y: Dated, r: seq<Dated>, ascending: bool)
    requires Sorted(r, ascending)
    requires forall k :: 0 <= k < |r| ==> !Precedes(r[k], y, ascending)
    ensures Sorted([y] + r, ascending)
  {
    var s := [y] + r;
    forall i, j | 0 <= i < j < |s| ensures !Precedes(s[j], s[i], ascending) {
      if i > 0 {
        assert s[i] == r[i - 1] && s[j] == r[j - 1];
      } else {
        assert s[j] == r[j - 1];
      }
    }
  }

  /** Inserting keeps a sorted list sorted. */
  lemma {:induction false} InsertSorted(x: Dated, ys: seq<Dated>, ascending: bool)
    requires Sorted(ys, ascending)
    ensures Sorted(Insert(x, ys, ascending), ascending)
  {
    if ys == [] || !Precedes(ys[0], x, ascending) {
      forall k | 0 <= k < |ys| ensures !Precedes(ys[k], x, ascending) {
        if k > 0 {
          PrecedesOrder(ys[k], ys[0], x, ascending);
        }
      }
      SortedCons(x, ys, ascending);
    } else {
      var rest := Insert(x, ys[1..], ascending);
      assert Sorted(ys[1..], ascending);
      InsertSorted(x, ys[1..], ascending);
      InsertPermutation(x, ys[1..], ascending);
      forall k | 0 <= k < |rest| ensures !Precedes(rest[k], ys[0], ascending) {
        assert rest[k] in multiset(rest);
        if rest[k] == x {
          PrecedesOrder(ys[0], x, x, ascending);
        } else {
          assert rest[k] in ys[1..];
        }
      }
      SortedCons(ys[0], rest, ascending);
    }
  }

  /** Sorting gives a sorted permutation of its input. */
  lemma {:induction false} SortFacts(xs: seq<Dated>, ascending: bool)
    ensures multiset(Sort(xs, ascending)) == multiset(xs)
    ensures Sorted(Sort(xs, ascending), ascending)
  {
    if xs != [] {
      SortFacts(xs[1..], ascending);
      InsertPermutation(xs[0], Sort(xs[1..], ascending), ascending);
      InsertSorted(xs[0], Sort(xs[1..], ascending), ascending);
      assert xs == [xs[0]] + xs[1..];
    }
  }

  /** xs[i] is a least entry of xs and comes strictly before every entry ahead of it: the first
      least entry in input order. */
  predicate IsFirstLeast(xs: seq<Dated>, i: int, ascending: bool) {
    && 0 <= i < |xs|
    && (forall j :: 0 <= j < |xs| ==> !Precedes(xs[j], xs[i], ascending))
    && (forall j :: 0 <= j < i ==> Precedes(xs[i], xs[j], ascending))
  }

  /** Stability at the head: the sorted list starts with the first least entry of the input. */
  lemma {:induction false} SortHead(xs: seq<Dated>, ascending: bool)
    requires xs != []
    ensures exists i :: IsFirstLeast(xs, i, ascending) && Sort(xs, ascending)[0] == xs[i]
  {
    var s := Sort(xs[1..], ascending);
    if xs[1..] == [] {
      assert IsFirstLeast(xs, 0, ascending);
    } else {
      SortHead(xs[1..], ascending);
      var t := xs[1..];
      var k :| IsFirstLeast(t, k, ascending) && s[0] == t[k];
      if !Precedes(s[0], xs[0], ascending) {
        forall j | 0 <= j < |xs| ensures !Precedes(xs[j], xs[0], ascending) {
          if j > 0 {
            assert xs[j] == t[j - 1];
            PrecedesOrder(xs[j], s[0], xs[0], ascending);
          }
        }
        assert IsFirstLeast(xs, 0, ascending);
      } else {
        forall j | 0 <= j < |xs| ensures !Precedes(xs[j], xs[k + 1], ascending) {
          if j == 0 {
            PrecedesOrder(s[0], xs[0], xs[0], ascending);
          } else {
            assert xs[j] == t[j - 1];
          }
        }
        forall j | 0 <= j < k + 1 ensures Precedes(xs[k + 1], xs[j], ascending) {
          if j > 0 {
            assert xs[j] == t[j - 1];
          }
        }
        assert IsFirstLeast(xs, k + 1, ascending);
      }
    }
  }

  // ---------------------------------------------------------------------------------------
  // The two operations

  /** The dated games at or after now, soonest first, as `findNextGame` and `segmentGames`
      compute them. */
  function Upcoming(games: seq<Game>, env: Environment): (r: seq<Dated>) {
    Sort(Keep(WithDates(games, env), env.now, true), true)
  }

  /** The dated games before now, latest first. */
  function Past(games: seq<Game>, env: Environment): (r: seq<Dated>) {
    Sort(Keep(WithDates(games, env), env.now, false), false)
  }

  /** `findNextGame`: the head of the upcoming games, or None. */
  function FindNextGame(games: seq<Game>, env: Environment): (r: Option<Dated>)
    ensures r.Some? ==> r.value.game in games && NotAfter(env.now, r.value.dt)
  {
    var kept := Keep(WithDates(games, env), env.now, true);
    var future := Upcoming(games, env);
    SortFacts(kept, true);
    if |future| > 0 then
      assert future[0] in multiset(kept);
      Some(future[0])
    else None
  }

  /** The result of `segmentGames`. */
  datatype Segments = Segments(upcoming: seq<Dated>, past: seq<Dated>)

  /** `segmentGames`: the upcoming games soonest first and the past games latest first. */
  function SegmentGames(games: seq<Game>, env: Environment): (r: Segments) {
    Segments(Upcoming(games, env), Past(games, env))
  }

  /** The game can be read and is at or after now. */
  predicate IsUpcoming(g: Game, env: Environment) {
    GameDate(g, env).Some? && NotAfter(env.now, GameDate(g, env).value)
  }

  /** games[i] is the game `findNextGame` should pick: upcoming, no later than any upcoming
      game, and strictly earlier than every upcoming game before it in the list. */
  predicate IsNextGame(games: seq<Game>, env: Environment, i: int) {
    && 0 <= i < |games| && IsUpcoming(games[i], env)
    && (forall j :: 0 <= j < |games| && IsUpcoming(games[j], env) ==>
          NotAfter(GameDate(games[i], env).value, GameDate(games[j], env).value))
    && (forall j :: 0 <= j < i && IsUpcoming(games[j], env) ==>
          Before(GameDate(games[i], env).value, GameDate(games[j], env).value))
  }

  /** The upcoming entries of a game list, before sorting, follow the games one by one. */
  lemma UpcomingEntries(games: seq<Game>, env: Environment)
    requires games != []
    ensures Keep(WithDates(games, env), env.now, true) ==
      if IsUpcoming(games[0], env) then [Dated(games[0], GameDate(games[0], env).value)] + Keep(WithDates(games[1..], env), env.now, true)
      else Keep(WithDates(games[1..], env), env.now, true)
  {
    var rest := WithDates(games[1..], env);
    if GameDate(games[0], env).Some? {
      var ds := WithDates(games, env);
      assert ds == [Dated(games[0], GameDate(games[0], env).value)] + rest;
      assert ds[1..] == rest;
    }
  }

  /** What `findNextGame` promises: null exactly when no game is upcoming, and otherwise the
      next game with its point in time. */
  predicate NextGameSpec(games: seq<Game>, env: Environment) {
    && (FindNextGame(games, env).None? <==> forall j :: 0 <= j < |games| ==> !IsUpcoming(games[j], env))
    && (FindNextGame(games, env).Some? ==>
          exists i :: 0 <= i < |games| && IsNextGame(games, env, i)
            && FindNextGame(games, env).value == Dated(games[i], GameDate(games[i], env).value))
  }

  /** `findNextGame` returns null exactly when no game is upcoming; otherwise it returns the
      earliest upcoming game, the first one in input order among equally early ones, with its
      point in time. */
  lemma {:induction false} FindNextGameIsFirstEarliest(games: seq<Game>, env: Environment)
    ensures NextGameSpec(games, env)
  {
    if games == [] {
      assert FindNextGame(games, env).None?;
    } else {
      FindNextGameIsFirstEarliest(games[1..], env);
      UpcomingEntries(games, env);
      if IsUpcoming(games[0], env) {
        NextGameUpcomingHead(games, env);
      } else {
        NextGameOtherHead(games, env);
      }
    }
  }

  /** The induction step when the first game is upcoming. */
  lemma NextGameUpcomingHead(games: seq<Game>, env: Environment)
    requires games != [] && IsUpcoming(games[0], env) && NextGameSpec(games[1..], env)
    requires Keep(WithDates(games, env), env.now, true)
      == [Dated(games[0], GameDate(games[0], env).value)] + Keep(WithDates(games[1..], env), env.now, true)
    ensures NextGameSpec(games, env)
  {
    var tail := games[1..];
    var x := Dated(games[0], GameDate(games[0], env).value);
    var restSorted := Upcoming(tail, env);
    assert Upcoming(games, env) == Insert(x, restSorted, true);
    if restSorted == [] {
      assert FindNextGame(games, env).value == x;
      HeadIsNextGame(games, env);
    } else {
      var i :| IsNextGame(tail, env, i) && restSorted[0] == Dated(tail[i], GameDate(tail[i], env).value);
      if !Precedes(restSorted[0], x, true) {
        assert FindNextGame(games, env).value == x;
        HeadBeatsNextGame(games, env, i);
      } else {
        assert FindNextGame(games, env).value == restSorted[0];
        NextGameBeatsHead(games, env, i);
      }
    }
  }

  /** The induction step when the first game is not upcoming. */
  lemma NextGameOtherHead(games: seq<Game>, env: Environment)
    requires games != [] && !IsUpcoming(games[0], env) && NextGameSpec(games[1..], env)
    requires Keep(WithDates(games, env), env.now, true) == Keep(WithDates(games[1..], env), env.now, true)
    ensures NextGameSpec(games, env)
  {
    var tail := games[1..];
    assert FindNextGame(games, env) == FindNextGame(tail, env);
    if FindNextGame(tail, env).Some? {
      var i :| IsNextGame(tail, env, i) && FindNextGame(tail, env).value == Dated(tail[i], GameDate(tail[i], env).value);
      ShiftNextGame(games, env, i);
    } else {
      forall j | 0 <= j < |games| ensures !IsUpcoming(games[j], env) {
        if j > 0 {
          assert games[j] == tail[j - 1];
        }
      }
    }
  }

  /** The only upcoming game is the first. */
  lemma HeadIsNextGame(games: seq<Game>, env: Environment)
    requires games != [] && IsUpcoming(games[0], env)
    requires forall j :: 0 <= j < |games[1..]| ==> !IsUpcoming(games[1..][j], env)
    ensures IsNextGame(games, env, 0)
  {
    var d0 := GameDate(games[0], env).value;
    NotAfterIsTotalOrder(d0, d0, d0);
    forall j | 0 < j < |games| ensures !IsUpcoming(games[j], env) {
      assert games[j] == games[1..][j - 1];
    }
  }

  /** The first game is upcoming and no later than the next game of the rest. */
  lemma HeadBeatsNextGame(games: seq<Game>, env: Environment, i: int)
    requires games != [] && IsUpcoming(games[0], env) && IsNextGame(games[1..], env, i)
    requires NotAfter(GameDate(games[0], env).value, GameDate(games[1..][i], env).value)
    ensures IsNextGame(games, env, 0)
  {
    var tail := games[1..];
    var d0, di := GameDate(games[0], env).value, GameDate(tail[i], env).value;
    NotAfterIsTotalOrder(d0, d0, d0);
    forall j | 0 < j < |games| && IsUpcoming(games[j], env)
      ensures NotAfter(d0, GameDate(games[j], env).value)
    {
      assert games[j] == tail[j - 1];
      NotAfterIsTotalOrder(d0, di, GameDate(games[j], env).value);
    }
  }

  /** The next game of the rest is strictly earlier than the upcoming first game. */
  lemma NextGameBeatsHead(games: seq<Game>, env: Environment, i: int)
    requires games != [] && IsUpcoming(games[0], env) && IsNextGame(games[1..], env, i)
    requires Before(GameDate(games[1..][i], env).value, GameDate(games[0], env).value)
    ensures IsNextGame(games, env, i + 1)
  {
    var tail := games[1..];
    var di := GameDate(tail[i], env).value;
    assert games[i + 1] == tail[i];
    NotAfterIsTotalOrder(di, GameDate(games[0], env).value, di);
    forall j | 0 < j < |games| && IsUpcoming(games[j], env)
      ensures NotAfter(di, GameDate(games[j], env).value)
    {
      assert games[j] == tail[j - 1];
    }
    forall j | 0 < j < i + 1 && IsUpcoming(games[j], env)
      ensures Before(di, GameDate(games[j], env).value)
    {
      assert games[j] == tail[j - 1];
    }
  }

  /** A first game that is not upcoming does not change which game is next. */
  lemma ShiftNextGame(games: seq<Game>, env: Environment, i: int)
    requires games != [] && !IsUpcoming(games[0], env) && IsNextGame(games[1..], env, i)
    ensures IsNextGame(games, env, i + 1)
  {
    var tail := games[1..];
    var di := GameDate(tail[i], env).value;
    assert games[i + 1] == tail[i];
    forall j | 0 < j < |games| && IsUpcoming(games[j], env)
      ensures NotAfter(di, GameDate(games[j], env).value)
    {
      assert games[j] == tail[j - 1];
    }
    forall j | 0 < j < i + 1 && IsUpcoming(games[j], env)
      ensures Before(di, GameDate(games[j], env).value)
    {
      assert games[j] == tail[j - 1];
    }
  }

  /** The upcoming list of `segmentGames`: every entry is at or after now, soonest first. */
  lemma UpcomingOrdered(games: seq<Game>, env: Environment)
    ensures var up := SegmentGames(games, env).upcoming;
      && (forall i :: 0 <= i < |up| ==> NotAfter(env.now, up[i].dt))
      && (forall i, j :: 0 <= i < j < |up| ==> NotAfter(up[i].dt, up[j].dt))
  {
    var kept := Keep(WithDates(games, env), env.now, true);
    SortFacts(kept, true);
    var up := SegmentGames(games, env).upcoming;
    forall i | 0 <= i < |up| ensures NotAfter(env.now, up[i].dt) {
      assert up[i] in multiset(kept);
    }
    forall i, j | 0 <= i < j < |up| ensures NotAfter(up[i].dt, up[j].dt) {
      assert !Precedes(up[j], up[i], true);
    }
  }

  /** The past list of `segmentGames`: every entry is before now, latest first. */
  lemma PastOrdered(games: seq<Game>, env: Environment)
    ensures var past := SegmentGames(games, env).past;
      && (forall i :: 0 <= i < |past| ==> Before(past[i].dt, env.now))
      && (forall i, j :: 0 <= i < j < |past| ==> NotAfter(past[j].dt, past[i].dt))
  {
    var kept := Keep(WithDates(games, env), env.now, false);
    SortFacts(kept, false);
    var past := SegmentGames(games, env).past;
    forall i | 0 <= i < |past| ensures Before(past[i].dt, env.now) {
      assert past[i] in multiset(kept);
    }
    forall i, j | 0 <= i < j < |past| ensures NotAfter(past[j].dt, past[i].dt) {
      assert !Precedes(past[j], past[i], false);
    }
  }

  /** Together the two lists are a permutation of the dated games: nothing is lost or repeated,
      and a game whose date cannot be read is in neither. */
  lemma SegmentsPermutation(games: seq<Game>, env: Environment)
    ensures var s := SegmentGames(games, env);
      multiset(s.upcoming) + multiset(s.past) == multiset(WithDates(games, env))
  {
    var ds := WithDates(games, env);
    SortFacts(Keep(ds, env.now, true), true);
    SortFacts(Keep(ds, env.now, false), false);
    KeepPartition(ds, env.now);
  }

  /** Every entry of either list is an input game unchanged, with `_dt` its point in time. */
  lemma SegmentsEntries(games: seq<Game>, env: Environment, e: Dated)
    requires e in SegmentGames(games, env).upcoming || e in SegmentGames(games, env).past
    ensures e.game in games && GameDate(e.game, env) == Some(e.dt)
  {
    SegmentsPermutation(games, env);
    var s := SegmentGames(games, env);
    assert e in multiset(s.upcoming) + multiset(s.past);
    assert e in WithDates(games, env);
  }

  /** The game `findNextGame` picks is the first of the upcoming list. */
  lemma NextGameHeadsUpcoming(games: seq<Game>, env: Environment)
    ensures FindNextGame(games, env) ==
      if SegmentGames(games, env).upcoming == [] then None else Some(SegmentGames(games, env).upcoming[0])
  {
  }
}
