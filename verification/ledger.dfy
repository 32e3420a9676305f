/** The points ledger: one document per (guild, user) holding a total per
    point category, updated only through an upsert-increment that returns the
    new total, plus the clamped removal the admin commands perform. */
module Ledger {
  import opened Base

  /** The point fields the bot stores: training, mission, raid, war and event points. */
  datatype Category = TP | MP | RP | WP | EVE

  /** A document is identified by the guild id and the user id. */
  datatype Key = Key(guild: nat, user: nat)

  /** The fields present in one document. */
  type Record = map<Category, int>

  /** The whole collection. */
  type Store = map<Key, Record>

  /** `get_user_data`: the stored document, or `None`; never creates one. */
  function GetUserData(store: Store, k: Key): Option<Record>
  {
    if k in store then Some(store[k]) else None
  }

  /** The value of field `c` of document `k`, reading a missing document or a
      missing field as 0. */
  function Value(store: Store, k: Key, c: Category): int
  {
    if k in store && c in store[k] then store[k][c] else 0
  }

  /** Every stored field is at least 0. */
  ghost predicate NonNegative(store: Store)
  {
    forall k, c :: Value(store, k, c) >= 0
  }

  /** The updated collection and the value `add_points` returns. */
  datatype Upserted = Upserted(store: Store, total: int)

  /** `add_points`: `find_one_and_update` with `$inc`, `upsert=True` and the
      document as it is after the update. */
  function AddPoints(store: Store, k: Key, c: Category, amount: int): (r: Upserted)
    ensures r.total == Value(store, k, c) + amount
    ensures Value(r.store, k, c) == r.total
    ensures r.store.Keys == store.Keys + {k}
    ensures c in r.store[k]
    ensures k in store ==> r.store[k].Keys == store[k].Keys + {c}
    ensures forall k', c' :: k' != k || c' != c ==> Value(r.store, k', c') == Value(store, k', c')
  {
    var doc := if k in store then store[k] else map[];
    var total := (if c in doc then doc[c] else 0) + amount;
    Upserted(store[k := doc[c := total]], total)
  }

  /** An increment that does not drive its field below zero keeps every field non-negative. */
  lemma AddPointsNonNegative(store: Store, k: Key, c: Category, amount: int)
    requires NonNegative(store)
    requires Value(store, k, c) + amount >= 0
    ensures NonNegative(AddPoints(store, k, c, amount).store)
  {
  }

  /** One `add_points` call a command makes: user, field and amount (the guild is the command's). */
  datatype Inc = Inc(user: nat, cat: Category, amount: int)

  /** What the increments in `incs` add, together, to `user`'s field `cat`. */
  function Total(incs: seq<Inc>, user: nat, cat: Category): int
  {
    if |incs| == 0 then 0
    else
      var last := incs[|incs| - 1];
      Total(incs[..|incs| - 1], user, cat) + (if last.user == user && last.cat == cat then last.amount else 0)
  }

  /** A single increment adds its amount to its own user and field only. */
  lemma TotalSingle(inc: Inc, user: nat, cat: Category)
    ensures Total([inc], user, cat) == if inc.user == user && inc.cat == cat then inc.amount else 0
  {
    assert [inc][..0] == [];
  }

  /** Totals of a concatenation add up. */
  lemma {:induction false} TotalAppend(a: seq<Inc>, b: seq<Inc>, user: nat, cat: Category)
    ensures Total(a + b, user, cat) == Total(a, user, cat) + Total(b, user, cat)
    decreases |b|
  {
    if |b| == 0 {
      assert a + b == a;
    } else {
      assert (a + b)[..|a + b| - 1] == a + b[..|b| - 1];
      TotalAppend(a, b[..|b| - 1], user, cat);
    }
  }

  /** The collection after a command and the totals its `add_points` calls returned. */
  datatype Applied = Applied(store: Store, totals: seq<int>)

  /** `add_points(guild, inc.user, inc.cat, inc.amount)` for each increment
      in turn, one atomic upsert each. */
  function ApplyAll(store: Store, guild: nat, incs: seq<Inc>): (r: Applied)
    ensures |r.totals| == |incs|
  {
    if |incs| == 0 then Applied(store, [])
    else
      var prev := ApplyAll(store, guild, incs[..|incs| - 1]);
      var last := incs[|incs| - 1];
      var u := AddPoints(prev.store, Key(guild, last.user), last.cat, last.amount);
      Applied(u.store, prev.totals + [u.total])
  }

  /** After the increments, every field holds its old value plus what the
      increments added to it; documents of other guilds are untouched. */
  lemma {:induction false} ApplyAllValue(store: Store, guild: nat, incs: seq<Inc>, k: Key, c: Category)
    ensures Value(ApplyAll(store, guild, incs).store, k, c)
         == Value(store, k, c) + (if k.guild == guild then Total(incs, k.user, c) else 0)
    decreases |incs|
  {
    if |incs| > 0 {
      ApplyAllValue(store, guild, incs[..|incs| - 1], k, c);
    }
  }

  /** The `i`-th returned total is the field's value before the command plus
      everything the first `i + 1` increments added to that field. */
  lemma {:induction false} ApplyAllTotals(store: Store, guild: nat, incs: seq<Inc>, i: nat)
    requires i < |incs|
    ensures ApplyAll(store, guild, incs).totals[i]
         == Value(store, Key(guild, incs[i].user), incs[i].cat) + Total(incs[..i + 1], incs[i].user, incs[i].cat)
    decreases |incs|
  {
    var n := |incs| - 1;
    if i < n {
      ApplyAllTotals(store, guild, incs[..n], i);
      assert incs[..n][..i + 1] == incs[..i + 1];
    } else {
      ApplyAllValue(store, guild, incs[..n], Key(guild, incs[n].user), incs[n].cat);
      assert incs[..n + 1] == incs;
    }
  }

  /** The `i`-th increment is addressed to `user`. */
  predicate IncrementsUser(incs: seq<Inc>, i: int, user: nat)
  {
    0 <= i < |incs| && incs[i].user == user
  }

  /** A document exists afterwards exactly when it existed before or the
      command incremented one of its fields (upsert). */
  lemma {:induction false} ApplyAllKeys(store: Store, guild: nat, incs: seq<Inc>, k: Key)
    ensures k in ApplyAll(store, guild, incs).store
        <==> k in store || (k.guild == guild && exists i :: IncrementsUser(incs, i, k.user))
    decreases |incs|
  {
    if |incs| > 0 {
      var n := |incs| - 1;
      ApplyAllKeys(store, guild, incs[..n], k);
      assert forall i :: IncrementsUser(incs[..n], i, k.user) ==> IncrementsUser(incs, i, k.user);
      assert (exists i :: IncrementsUser(incs, i, k.user))
          <==> (exists i :: IncrementsUser(incs[..n], i, k.user)) || incs[n].user == k.user by {
        if exists i :: IncrementsUser(incs, i, k.user) {
          var i :| IncrementsUser(incs, i, k.user);
          if i < n {
            assert IncrementsUser(incs[..n], i, k.user);
          }
        }
        if incs[n].user == k.user {
          assert IncrementsUser(incs, n, k.user);
        }
      }
    }
  }

  /** Increments that are never negative add a non-negative amount. */
  lemma {:induction false} TotalNonNegative(incs: seq<Inc>, user: nat, cat: Category)
    requires forall i :: 0 <= i < |incs| ==> incs[i].amount >= 0
    ensures Total(incs, user, cat) >= 0
    decreases |incs|
  {
    if |incs| > 0 {
      TotalNonNegative(incs[..|incs| - 1], user, cat);
    }
  }

  /** Non-negative increments keep every field non-negative. */
  lemma ApplyAllNonNegative(store: Store, guild: nat, incs: seq<Inc>)
    requires NonNegative(store)
    requires forall i :: 0 <= i < |incs| ==> incs[i].amount >= 0
    ensures NonNegative(ApplyAll(store, guild, incs).store)
  {
    forall k, c
      ensures Value(ApplyAll(store, guild, incs).store, k, c) >= 0
    {
      ApplyAllValue(store, guild, incs, k, c);
      TotalNonNegative(incs, k.user, c);
    }
  }

  /** What one member's line of the /deltp or /delmp summary reports. */
  datatype Removal = Removed(amount: int, total: int) | NothingToRemove

  /** The removal step for one member: it either raises or finishes with a
      collection and a report. */
  datatype RemoveRun = Crash | Done(store: Store, removal: Removal)

  /** The per-member step of /deltp and /delmp as written: the field is read
      from the document `get_user_data` returns, and for a member who has never
      received points there is no document, so the read raises. */
  function RemoveAsWritten(store: Store, k: Key, c: Category, points: int): (r: RemoveRun)
    requires points >= 1
    ensures r.Crash? <==> k !in store
    ensures k in store ==> r == Remove(store, k, c, points)
  {
    match GetUserData(store, k)
    case None => Crash
    case Some(doc) =>
      var current := if c in doc then doc[c] else 0;
      var amount := Min(points, current);
      if amount > 0 then
        var u := AddPoints(store, k, c, -amount);
        Done(u.store, Removed(amount, u.total))
      else Done(store, NothingToRemove)
  }

  /** The per-member removal step with a missing document read as an empty
      one: `remove_amt = min(points, current)`, written only when positive. */
  function Remove(store: Store, k: Key, c: Category, points: int): (r: RemoveRun)
    requires points >= 1
    ensures r.Done?
    ensures r.removal.Removed? <==> Value(store, k, c) > 0
    ensures r.removal.Removed? ==>
      && 1 <= r.removal.amount <= points
      && r.removal.total == Value(store, k, c) - r.removal.amount >= 0
      && (r.removal.amount == points || r.removal.total == 0)
      && Value(r.store, k, c) == r.removal.total
    ensures r.removal.NothingToRemove? ==> r.store == store
    ensures forall k', c' :: k' != k || c' != c ==> Value(r.store, k', c') == Value(store, k', c')
    ensures r.store.Keys == store.Keys
  {
    var current := Value(store, k, c);
    var amount := Min(points, current);
    if amount > 0 then
      var u := AddPoints(store, k, c, -amount);
      Done(u.store, Removed(amount, u.total))
    else Done(store, NothingToRemove)
  }

  /** The defect: a member without a document makes the as-written step
      raise, where the corrected step reports that there is nothing to remove. */
  lemma RemoveAsWrittenCrashes(store: Store, k: Key, c: Category, points: int)
    requires points >= 1
    requires k !in store
    ensures RemoveAsWritten(store, k, c, points).Crash?
    ensures Remove(store, k, c, points) == Done(store, NothingToRemove)
  {
  }

  /** A concrete instance: an empty collection and `/deltp` with 1 point. */
  lemma RemoveAsWrittenCrashesOnEmptyStore()
    ensures RemoveAsWritten(map[], Key(1, 2), TP, 1) == Crash
  {
  }

  /** Whenever the document exists, the corrected step is exactly the code as written. */
  lemma RemoveAgreesWithRecord(store: Store, k: Key, c: Category, points: int)
    requires points >= 1
    requires k in store
    ensures RemoveAsWritten(store, k, c, points) == Remove(store, k, c, points)
  {
  }

  /** Removing keeps every field non-negative. */
  lemma RemoveNonNegative(store: Store, k: Key, c: Category, points: int)
    requires points >= 1
    requires NonNegative(store)
    ensures NonNegative(Remove(store, k, c, points).store)
  {
  }

  function Max0(x: int): nat
  {
    if x > 0 then x else 0
  }

  /** One line of the /deltp or /delmp summary. */
  datatype DelLine = NotInGuild(user: nat) | Took(user: nat, amount: int, total: int) | NoneToTake(user: nat)

  /** The collection after the removal loop and its summary lines. */
  datatype Sweep = Sweep(store: Store, lines: seq<DelLine>)

  /** The /deltp and /delmp loop: every mentioned id in turn, skipping ids
      `guild.get_member` does not resolve, removing from the others with the
      corrected per-member step. Each repetition of an id removes again. */
  function RemoveEach(store: Store, guild: nat, ids: seq<nat>, members: set<nat>, c: Category, points: int): (r: Sweep)
    requires points >= 1
    ensures |r.lines| == |ids|
    ensures forall i :: 0 <= i < |ids| ==> r.lines[i].user == ids[i] && (r.lines[i].NotInGuild? <==> ids[i] !in members)
    ensures forall i :: 0 <= i < |ids| && r.lines[i].Took? ==>
      1 <= r.lines[i].amount <= points && r.lines[i].total >= 0
  {
    if |ids| == 0 then Sweep(store, [])
    else
      var n := |ids| - 1;
      var prev := RemoveEach(store, guild, ids[..n], members, c, points);
      var u := ids[n];
      if u !in members then Sweep(prev.store, prev.lines + [NotInGuild(u)])
      else
        var step := Remove(prev.store, Key(guild, u), c, points);
        match step.removal
        case Removed(amount, total) => Sweep(step.store, prev.lines + [Took(u, amount, total)])
        case NothingToRemove => Sweep(step.store, prev.lines + [NoneToTake(u)])
  }

  /** A non-negative value after `n` clamped removals of `points` each. */
  function Drain(v: int, n: nat, points: int): int
  {
    if n == 0 then Max0(v) else Max0(Drain(v, n - 1, points) - points)
  }

  /** `n` clamped removals take the value to `max(0, value - n * points)`. */
  lemma {:induction false} DrainClosedForm(v: int, n: nat, points: int)
    requires points >= 1
    ensures Drain(v, n, points) == Max0(v - n * points)
  {
    if n > 0 {
      DrainClosedForm(v, n - 1, points);
      assert n * points == (n - 1) * points + points;
    }
  }

  /** Starting from a non-negative value, a member mentioned `n` times ends at
      `max(0, value - n * points)`; non-members, other fields and other guilds
      are unchanged. */
  lemma RemoveEachValue(store: Store, guild: nat, ids: seq<nat>, members: set<nat>, c: Category, points: int, k: Key, c': Category)
    requires points >= 1
    requires Value(store, k, c') >= 0
    ensures Value(RemoveEach(store, guild, ids, members, c, points).store, k, c')
         == if k.guild == guild && c' == c && k.user in members
            then Max0(Value(store, k, c') - Count(ids, k.user) * points)
            else Value(store, k, c')
  {
    RemoveEachDrain(store, guild, ids, members, c, points, k, c');
    DrainClosedForm(Value(store, k, c'), Count(ids, k.user), points);
  }

  /** The loop applies one clamped removal per mention of the member. */
  lemma {:induction false} RemoveEachDrain(store: Store, guild: nat, ids: seq<nat>, members: set<nat>, c: Category, points: int, k: Key, c': Category)
    requires points >= 1
    requires Value(store, k, c') >= 0
    ensures Value(RemoveEach(store, guild, ids, members, c, points).store, k, c')
         == if k.guild == guild && c' == c && k.user in members
            then Drain(Value(store, k, c'), Count(ids, k.user), points)
            else Value(store, k, c')
    decreases |ids|
  {
    if |ids| > 0 {
      var n := |ids| - 1;
      var u := ids[n];
      var prev := RemoveEach(store, guild, ids[..n], members, c, points);
      RemoveEachDrain(store, guild, ids[..n], members, c, points, k, c');
      assert Count(ids, k.user) == Count(ids[..n], k.user) + (if u == k.user then 1 else 0);
      if u in members {
        var step := Remove(prev.store, Key(guild, u), c, points);
        assert RemoveEach(store, guild, ids, members, c, points).store == step.store;
      }
    }
  }

  /** `found_any`: some line of the summary reports points taken. */
  predicate FoundAny(lines: seq<DelLine>)
  {
    exists i :: 0 <= i < |lines| && lines[i].Took?
  }

  /** Some resolved mention has points of field `c` to lose. */
  predicate HadPoints(store: Store, guild: nat, ids: seq<nat>, members: set<nat>, c: Category)
  {
    exists i :: 0 <= i < |ids| && ids[i] in members && Value(store, Key(guild, ids[i]), c) > 0
  }

  lemma FoundAnySnoc(a: seq<DelLine>, x: DelLine)
    ensures FoundAny(a + [x]) <==> FoundAny(a) || x.Took?
  {
    if FoundAny(a + [x]) {
      var i :| 0 <= i < |a + [x]| && (a + [x])[i].Took?;
      if i < |a| {
        assert a[i] == (a + [x])[i];
      }
    }
    if FoundAny(a) {
      var i :| 0 <= i < |a| && a[i].Took?;
      assert (a + [x])[i] == a[i];
    }
    if x.Took? {
      assert (a + [x])[|a|] == x;
    }
  }

  lemma HadPointsSnoc(store: Store, guild: nat, ids: seq<nat>, members: set<nat>, c: Category)
    requires |ids| > 0
    ensures HadPoints(store, guild, ids, members, c)
        <==> HadPoints(store, guild, ids[..|ids| - 1], members, c)
             || (ids[|ids| - 1] in members && Value(store, Key(guild, ids[|ids| - 1]), c) > 0)
  {
    var n := |ids| - 1;
    if HadPoints(store, guild, ids, members, c) {
      var i :| 0 <= i < |ids| && ids[i] in members && Value(store, Key(guild, ids[i]), c) > 0;
      if i < n {
        assert ids[..n][i] == ids[i];
      }
    }
    if HadPoints(store, guild, ids[..n], members, c) {
      var i :| 0 <= i < n && ids[..n][i] in members && Value(store, Key(guild, ids[..n][i]), c) > 0;
      assert ids[i] == ids[..n][i];
    }
  }

  /** The loop's last line, and when it reports points taken. */
  lemma RemoveEachLast(store: Store, guild: nat, ids: seq<nat>, members: set<nat>, c: Category, points: int)
    requires points >= 1
    requires |ids| > 0
    ensures var r := RemoveEach(store, guild, ids, members, c, points);
            var prev := RemoveEach(store, guild, ids[..|ids| - 1], members, c, points);
            r.lines == prev.lines + [r.lines[|ids| - 1]]
            && (r.lines[|ids| - 1].Took?
                <==> ids[|ids| - 1] in members && Value(prev.store, Key(guild, ids[|ids| - 1]), c) > 0)
  {
  }

  /** A member's points after the loop over some mentions: positive only if
      they were positive before, and untouched if the member is not mentioned. */
  lemma RemoveEachStillPositive(store: Store, guild: nat, ids: seq<nat>, members: set<nat>, c: Category, points: int, u: nat)
    requires points >= 1
    requires Value(store, Key(guild, u), c) >= 0
    ensures Value(RemoveEach(store, guild, ids, members, c, points).store, Key(guild, u), c) > 0 ==> Value(store, Key(guild, u), c) > 0
    ensures u !in ids ==> Value(RemoveEach(store, guild, ids, members, c, points).store, Key(guild, u), c) == Value(store, Key(guild, u), c)
  {
    RemoveEachValue(store, guild, ids, members, c, points, Key(guild, u), c);
    CountZero(ids, u);
    assert Count(ids, u) * points >= 0;
  }

  /** Some line of the removal loop reports points taken exactly when some
      resolved mention had points to begin with. */
  lemma {:induction false} RemoveEachTook(store: Store, guild: nat, ids: seq<nat>, members: set<nat>, c: Category, points: int)
    requires points >= 1
    requires NonNegative(store)
    ensures FoundAny(RemoveEach(store, guild, ids, members, c, points).lines) <==> HadPoints(store, guild, ids, members, c)
    decreases |ids|
  {
    if |ids| > 0 {
      var n := |ids| - 1;
      var p := ids[..n];
      var u := ids[n];
      var prev := RemoveEach(store, guild, p, members, c, points);
      var r := RemoveEach(store, guild, ids, members, c, points);
      RemoveEachTook(store, guild, p, members, c, points);
      RemoveEachLast(store, guild, ids, members, c, points);
      FoundAnySnoc(prev.lines, r.lines[n]);
      HadPointsSnoc(store, guild, ids, members, c);
      if u in members {
        assert Value(store, Key(guild, u), c) >= 0;
        RemoveEachStillPositive(store, guild, p, members, c, points, u);
        if Value(store, Key(guild, u), c) > 0 && u in p {
          var j :| 0 <= j < n && p[j] == u;
          assert p[j] in members && Value(store, Key(guild, p[j]), c) > 0;
        }
      }
    }
  }

  /** Some mention's field `c` is lower in `after` than in `before`. */
  predicate Dropped(before: Store, after: Store, guild: nat, ids: seq<nat>, c: Category)
  {
    exists i :: 0 <= i < |ids| && Value(after, Key(guild, ids[i]), c) < Value(before, Key(guild, ids[i]), c)
  }

  /** A mentioned member's points drop exactly when they are resolved and had some. */
  lemma RemoveEachDropsAt(store: Store, guild: nat, ids: seq<nat>, members: set<nat>, c: Category, points: int, i: nat)
    requires points >= 1
    requires NonNegative(store)
    requires i < |ids|
    ensures Value(RemoveEach(store, guild, ids, members, c, points).store, Key(guild, ids[i]), c) < Value(store, Key(guild, ids[i]), c)
        <==> ids[i] in members && Value(store, Key(guild, ids[i]), c) > 0
  {
    RemoveEachValue(store, guild, ids, members, c, points, Key(guild, ids[i]), c);
    CountZero(ids, ids[i]);
    assert Count(ids, ids[i]) * points >= points;
  }

  /** Some line reports points taken exactly when some mention's points dropped. */
  lemma RemoveEachFoundIff(store: Store, guild: nat, ids: seq<nat>, members: set<nat>, c: Category, points: int)
    requires points >= 1
    requires NonNegative(store)
    ensures var r := RemoveEach(store, guild, ids, members, c, points);
            FoundAny(r.lines) <==> Dropped(store, r.store, guild, ids, c)
  {
    var r := RemoveEach(store, guild, ids, members, c, points);
    RemoveEachTook(store, guild, ids, members, c, points);
    if HadPoints(store, guild, ids, members, c) {
      var i :| 0 <= i < |ids| && ids[i] in members && Value(store, Key(guild, ids[i]), c) > 0;
      RemoveEachDropsAt(store, guild, ids, members, c, points, i);
    }
    if Dropped(store, r.store, guild, ids, c) {
      var i :| 0 <= i < |ids| && Value(r.store, Key(guild, ids[i]), c) < Value(store, Key(guild, ids[i]), c);
      RemoveEachDropsAt(store, guild, ids, members, c, points, i);
    }
  }

  /** The outcome of the /deltp and /delmp loop as written: either the
      exception escapes, leaving the removals already made in the collection
      and no summary, or the loop completes. */
  datatype SweepRun = Raised(store: Store) | Completed(sweep: Sweep)

  /** The loop with the as-written per-member step. */
  function RemoveEachAsWritten(store: Store, guild: nat, ids: seq<nat>, members: set<nat>, c: Category, points: int): SweepRun
    requires points >= 1
  {
    if |ids| == 0 then Completed(Sweep(store, []))
    else
      var n := |ids| - 1;
      var u := ids[n];
      match RemoveEachAsWritten(store, guild, ids[..n], members, c, points)
      case Raised(s) => Raised(s)
      case Completed(sw) =>
        if u !in members then Completed(Sweep(sw.store, sw.lines + [NotInGuild(u)]))
        else
          match RemoveAsWritten(sw.store, Key(guild, u), c, points)
          case Crash => Raised(sw.store)
          case Done(st, Removed(amount, total)) => Completed(Sweep(st, sw.lines + [Took(u, amount, total)]))
          case Done(st, NothingToRemove) => Completed(Sweep(st, sw.lines + [NoneToTake(u)]))
  }

  /** Removal never creates a document. */
  lemma {:induction false} RemoveEachKeeps(store: Store, guild: nat, ids: seq<nat>, members: set<nat>, c: Category, points: int, k: Key)
    requires points >= 1
    ensures k in RemoveEach(store, guild, ids, members, c, points).store <==> k in store
    decreases |ids|
  {
    if |ids| > 0 {
      RemoveEachKeeps(store, guild, ids[..|ids| - 1], members, c, points, k);
    }
  }

  /** Every resolved mention has a document in the guild. */
  predicate Documented(store: Store, guild: nat, ids: seq<nat>, members: set<nat>)
  {
    forall i :: 0 <= i < |ids| && ids[i] in members ==> Key(guild, ids[i]) in store
  }

  /** When every resolved mention has a document, the loop as written
      completes and does exactly what the corrected loop does. */
  lemma {:induction false} RemoveEachAsWrittenAgrees(store: Store, guild: nat, ids: seq<nat>, members: set<nat>, c: Category, points: int)
    requires points >= 1
    requires Documented(store, guild, ids, members)
    ensures RemoveEachAsWritten(store, guild, ids, members, c, points) == Completed(RemoveEach(store, guild, ids, members, c, points))
    decreases |ids|
  {
    if |ids| > 0 {
      var n := |ids| - 1;
      var u := ids[n];
      assert Documented(store, guild, ids[..n], members) by {
        forall i | 0 <= i < n && ids[..n][i] in members
          ensures Key(guild, ids[..n][i]) in store
        {
          assert ids[..n][i] == ids[i];
        }
      }
      RemoveEachAsWrittenAgrees(store, guild, ids[..n], members, c, points);
      var sw := RemoveEach(store, guild, ids[..n], members, c, points);
      if u in members {
        assert Key(guild, ids[n]) in store;
        RemoveEachKeeps(store, guild, ids[..n], members, c, points, Key(guild, u));
        RemoveAgreesWithRecord(sw.store, Key(guild, u), c, points);
      }
    }
  }

  /** Otherwise the loop as written raises at the first resolved mention
      without a document: the mentions before it have been processed as the
      corrected loop processes them, and none after it. */
  lemma {:induction false} RemoveEachAsWrittenRaises(store: Store, guild: nat, ids: seq<nat>, members: set<nat>, c: Category, points: int, i: nat)
    requires points >= 1
    requires i < |ids| && ids[i] in members && Key(guild, ids[i]) !in store
    requires Documented(store, guild, ids[..i], members)
    ensures RemoveEachAsWritten(store, guild, ids, members, c, points)
         == Raised(RemoveEach(store, guild, ids[..i], members, c, points).store)
    decreases |ids|
  {
    var n := |ids| - 1;
    if i == n {
      RemoveEachAsWrittenAgrees(store, guild, ids[..n], members, c, points);
      RemoveEachKeeps(store, guild, ids[..n], members, c, points, Key(guild, ids[i]));
    } else {
      assert ids[..n][..i] == ids[..i];
      assert ids[..n][i] == ids[i];
      RemoveEachAsWrittenRaises(store, guild, ids[..n], members, c, points, i);
    }
  }

  /** A concrete run: user 3 has no document and is mentioned before user 2,
      who has 5 training points. The loop as written raises at user 3 and
      user 2 keeps 5 points; the corrected loop takes one point from user 2. */
  lemma RemoveEachAsWrittenStopsEarly()
    ensures RemoveEachAsWritten(map[Key(1, 2) := map[TP := 5]], 1, [3, 2], {2, 3}, TP, 1) == Raised(map[Key(1, 2) := map[TP := 5]])
    ensures Value(RemoveEach(map[Key(1, 2) := map[TP := 5]], 1, [3, 2], {2, 3}, TP, 1).store, Key(1, 2), TP) == 4
  {
    var store := map[Key(1, 2) := map[TP := 5]];
    var ids := [3, 2];
    assert ids[..1] == [3] && [3][..0] == [];
    RemoveEachAsWrittenRaises(store, 1, ids, {2, 3}, TP, 1, 0);
    RemoveEachValue(store, 1, ids, {2, 3}, TP, 1, Key(1, 2), TP);
    assert Count(ids, 2) == 1 by {
      assert ids[..1] == [3];
    }
  }
}
