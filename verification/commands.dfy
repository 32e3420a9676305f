/** The point commands as whole operations on the ledger: the checks they make
    before writing, in the order the code makes them, and what they write. */
module Commands {
  import opened Base
  import opened Ledger
  import opened Mentions
  import opened Grants
  import opened Access

  /** What a command sees of its invocation: the guild, the invoking member
      and their role ids, and the ids `guild.get_member` resolves. */
  datatype Ctx = Ctx(guild: nat, caller: nat, callerRoles: seq<nat>, members: set<nat>)

  /** The ephemeral error replies a command can end with before writing anything. */
  datatype Rejection = NoPermission | BadRollcall | TooManyMissionPoints | NoMentions | NothingToAdd

  /** A granting command either refuses, or performs its `add_points` calls
      and reports the totals they returned. */
  datatype AddOutcome = Rejected(why: Rejection) | Granted(store: Store, incs: seq<Inc>, totals: seq<int>)

  function Run(store: Store, guild: nat, incs: seq<Inc>): AddOutcome
  {
    var a := ApplyAll(store, guild, incs);
    Granted(a.store, incs, a.totals)
  }

  /** `/addtp promo rollcall [mvp] [attended]`. */
  function AddTp(store: Store, ctx: Ctx, promo: string, rollcall: string, mvp: string, attended: string): AddOutcome
  {
    if !HasBasic(ctx.callerRoles) then Rejected(NoPermission)
    else if !RollcallOk(rollcall, true) then Rejected(BadRollcall)
    else Run(store, ctx.guild, TpIncrements(ctx.caller, MentionIds(mvp), MentionIds(promo), MentionIds(attended), ctx.members))
  }

  /** `/addmp member missionpoints rollcall`; Discord itself refuses a
      `missionpoints` below 1, and the member is already resolved. */
  function AddMp(store: Store, ctx: Ctx, member: nat, missionpoints: int, rollcall: string): AddOutcome
    requires missionpoints >= 1
  {
    if !HasBasic(ctx.callerRoles) then Rejected(NoPermission)
    else if missionpoints > 4 then Rejected(TooManyMissionPoints)
    else if !RollcallOk(rollcall, true) then Rejected(BadRollcall)
    else Run(store, ctx.guild, [Inc(member, MP, missionpoints)])
  }

  /** `/addra members rollcall [extra]`; an absent `extra` is the empty text. */
  function AddRa(store: Store, ctx: Ctx, members: string, rollcall: string, extra: string): AddOutcome
  {
    if !HasBasic(ctx.callerRoles) then Rejected(NoPermission)
    else if !RollcallOk(rollcall, true) then Rejected(BadRollcall)
    else if |MentionIds(members)| == 0 then Rejected(NoMentions)
    else Run(store, ctx.guild, RaIncrements(MentionIds(members), MentionIds(extra), ctx.members))
  }

  /** `/addwar members rollcall`. */
  function AddWar(store: Store, ctx: Ctx, members: string, rollcall: string): AddOutcome
  {
    if !HasBasic(ctx.callerRoles) then Rejected(NoPermission)
    else if !RollcallOk(rollcall, true) then Rejected(BadRollcall)
    else if |MentionIds(members)| == 0 then Rejected(NoMentions)
    else Run(store, ctx.guild, WarIncrements(MentionIds(members), ctx.members))
  }

  /** `/addeve members rollcall`: unlike the commands above, an empty link is refused. */
  function AddEve(store: Store, ctx: Ctx, members: string, rollcall: string): AddOutcome
  {
    if !HasBasic(ctx.callerRoles) then Rejected(NoPermission)
    else if !RollcallOk(rollcall, false) then Rejected(BadRollcall)
    else if |MentionIds(members)| == 0 then Rejected(NoMentions)
    else Run(store, ctx.guild, EveIncrements(MentionIds(members), ctx.members))
  }

  /** `/addall member [tp] [mp]`; Discord refuses negative amounts. */
  function AddAll(store: Store, ctx: Ctx, member: nat, tp: nat, mp: nat): AddOutcome
  {
    if !HasFull(ctx.callerRoles) then Rejected(NoPermission)
    else if tp == 0 && mp == 0 then Rejected(NothingToAdd)
    else Run(store, ctx.guild, AllIncrements(member, tp, mp))
  }

  /** The effect of a granting command on one field of one document: its old
      value plus what the increments add when the document is in the
      command's guild. */
  predicate Adds(before: Store, r: AddOutcome, guild: nat, k: Key, c: Category, added: int)
  {
    r.Granted? ==> Value(r.store, k, c) == Value(before, k, c) + (if k.guild == guild then added else 0)
  }

  lemma RunValue(store: Store, guild: nat, incs: seq<Inc>, k: Key, c: Category)
    ensures Adds(store, Run(store, guild, incs), guild, k, c, Total(incs, k.user, c))
  {
    ApplyAllValue(store, guild, incs, k, c);
  }

  /** `/addtp` writes only with basic permission and an empty or valid link,
      and then adds exactly the promised training points. */
  lemma AddTpEffect(store: Store, ctx: Ctx, promo: string, rollcall: string, mvp: string, attended: string, k: Key, c: Category)
    ensures AddTp(store, ctx, promo, rollcall, mvp, attended).Granted?
        <==> HasBasic(ctx.callerRoles) && RollcallOk(rollcall, true)
    ensures Adds(store, AddTp(store, ctx, promo, rollcall, mvp, attended), ctx.guild, k, c,
                 if c == TP then TpEarned(ctx.caller, MentionIds(mvp), MentionIds(promo), MentionIds(attended), ctx.members, k.user) else 0)
  {
    var incs := TpIncrements(ctx.caller, MentionIds(mvp), MentionIds(promo), MentionIds(attended), ctx.members);
    RunValue(store, ctx.guild, incs, k, c);
    TpIncrementsTotal(ctx.caller, MentionIds(mvp), MentionIds(promo), MentionIds(attended), ctx.members, k.user, c);
  }

  /** When no mention resolves, `/addtp` answers "No valid member mentions
      found" but has already granted the caller's own training point. */
  lemma AddTpNoValidMentions(store: Store, ctx: Ctx, promo: string, rollcall: string, mvp: string, attended: string)
    requires HasBasic(ctx.callerRoles) && RollcallOk(rollcall, true)
    requires !AnyValidMention(MentionIds(mvp), MentionIds(promo), MentionIds(attended), ctx.members)
    ensures AddTp(store, ctx, promo, rollcall, mvp, attended).incs == [Inc(ctx.caller, TP, 1)]
    ensures Value(AddTp(store, ctx, promo, rollcall, mvp, attended).store, Key(ctx.guild, ctx.caller), TP)
         == Value(store, Key(ctx.guild, ctx.caller), TP) + 1
  {
    TpIncrementsOnlyCaller(ctx.caller, MentionIds(mvp), MentionIds(promo), MentionIds(attended), ctx.members);
    var incs := [Inc(ctx.caller, TP, 1)];
    TotalSingle(incs[0], ctx.caller, TP);
    RunValue(store, ctx.guild, incs, Key(ctx.guild, ctx.caller), TP);
  }

  /** `/addmp` accepts 1 to 4 points, and adds them to the member's mission points. */
  lemma AddMpEffect(store: Store, ctx: Ctx, member: nat, missionpoints: int, rollcall: string, k: Key, c: Category)
    requires missionpoints >= 1
    ensures AddMp(store, ctx, member, missionpoints, rollcall).Granted?
        <==> HasBasic(ctx.callerRoles) && missionpoints <= 4 && RollcallOk(rollcall, true)
    ensures AddMp(store, ctx, member, missionpoints, rollcall).Granted? ==> 1 <= missionpoints <= 4
    ensures Adds(store, AddMp(store, ctx, member, missionpoints, rollcall), ctx.guild, k, c,
                 if k.user == member && c == MP then missionpoints else 0)
  {
    var incs := [Inc(member, MP, missionpoints)];
    TotalSingle(incs[0], k.user, c);
    RunValue(store, ctx.guild, incs, k, c);
  }

  /** `/addra`: +1 raid and +2 mission points per raid mention, +1 mission
      point per extra mention, for resolved members only. */
  lemma AddRaEffect(store: Store, ctx: Ctx, members: string, rollcall: string, extra: string, k: Key, c: Category)
    ensures AddRa(store, ctx, members, rollcall, extra).Granted?
        <==> HasBasic(ctx.callerRoles) && RollcallOk(rollcall, true) && |MentionIds(members)| > 0
    ensures Adds(store, AddRa(store, ctx, members, rollcall, extra), ctx.guild, k, c,
                 if k.user !in ctx.members then 0
                 else if c == RP then Count(MentionIds(members), k.user)
                 else if c == MP then 2 * Count(MentionIds(members), k.user) + Count(MentionIds(extra), k.user)
                 else 0)
  {
    var incs := RaIncrements(MentionIds(members), MentionIds(extra), ctx.members);
    RunValue(store, ctx.guild, incs, k, c);
    RaIncrementsTotal(MentionIds(members), MentionIds(extra), ctx.members, k.user, c);
  }

  /** `/addwar`: +1 war point per resolved mention. */
  lemma AddWarEffect(store: Store, ctx: Ctx, members: string, rollcall: string, k: Key, c: Category)
    ensures AddWar(store, ctx, members, rollcall).Granted?
        <==> HasBasic(ctx.callerRoles) && RollcallOk(rollcall, true) && |MentionIds(members)| > 0
    ensures Adds(store, AddWar(store, ctx, members, rollcall), ctx.guild, k, c,
                 if k.user in ctx.members && c == WP then Count(MentionIds(members), k.user) else 0)
  {
    RunValue(store, ctx.guild, WarIncrements(MentionIds(members), ctx.members), k, c);
    WarIncrementsTotal(MentionIds(members), ctx.members, k.user, c);
  }

  /** `/addeve`: a non-empty valid link is required; +1 event and +1 mission
      point per resolved mention. */
  lemma AddEveEffect(store: Store, ctx: Ctx, members: string, rollcall: string, k: Key, c: Category)
    ensures AddEve(store, ctx, members, rollcall).Granted?
        <==> HasBasic(ctx.callerRoles) && RollcallOk(rollcall, false) && |MentionIds(members)| > 0
    ensures AddEve(store, ctx, members, rollcall).Granted? ==> rollcall != []
    ensures Adds(store, AddEve(store, ctx, members, rollcall), ctx.guild, k, c,
                 if k.user in ctx.members && (c == EVE || c == MP) then Count(MentionIds(members), k.user) else 0)
  {
    RunValue(store, ctx.guild, EveIncrements(MentionIds(members), ctx.members), k, c);
    EveIncrementsTotal(MentionIds(members), ctx.members, k.user, c);
    RollcallMeaning(rollcall);
  }

  /** `/addall`: full permission and at least one positive amount; adds both amounts. */
  lemma AddAllEffect(store: Store, ctx: Ctx, member: nat, tp: nat, mp: nat, k: Key, c: Category)
    ensures AddAll(store, ctx, member, tp, mp).Granted? <==> HasFull(ctx.callerRoles) && (tp > 0 || mp > 0)
    ensures Adds(store, AddAll(store, ctx, member, tp, mp), ctx.guild, k, c,
                 if k.user != member then 0 else if c == TP then tp else if c == MP then mp else 0)
  {
    RunValue(store, ctx.guild, AllIncrements(member, tp, mp), k, c);
    AllIncrementsTotal(member, tp, mp, k.user, c);
  }

  /** No granting command can make a stored value negative. */
  lemma AddTpNonNegative(store: Store, ctx: Ctx, promo: string, rollcall: string, mvp: string, attended: string)
    requires NonNegative(store)
    ensures AddTp(store, ctx, promo, rollcall, mvp, attended).Granted? ==> NonNegative(AddTp(store, ctx, promo, rollcall, mvp, attended).store)
  {
    forall k, c | AddTp(store, ctx, promo, rollcall, mvp, attended).Granted?
      ensures Value(AddTp(store, ctx, promo, rollcall, mvp, attended).store, k, c) >= 0
    {
      AddTpEffect(store, ctx, promo, rollcall, mvp, attended, k, c);
    }
  }

  lemma AddMpNonNegative(store: Store, ctx: Ctx, member: nat, missionpoints: int, rollcall: string)
    requires missionpoints >= 1
    requires NonNegative(store)
    ensures AddMp(store, ctx, member, missionpoints, rollcall).Granted? ==> NonNegative(AddMp(store, ctx, member, missionpoints, rollcall).store)
  {
    forall k, c | AddMp(store, ctx, member, missionpoints, rollcall).Granted?
      ensures Value(AddMp(store, ctx, member, missionpoints, rollcall).store, k, c) >= 0
    {
      AddMpEffect(store, ctx, member, missionpoints, rollcall, k, c);
    }
  }

  lemma AddRaNonNegative(store: Store, ctx: Ctx, members: string, rollcall: string, extra: string)
    requires NonNegative(store)
    ensures AddRa(store, ctx, members, rollcall, extra).Granted? ==> NonNegative(AddRa(store, ctx, members, rollcall, extra).store)
  {
    forall k, c | AddRa(store, ctx, members, rollcall, extra).Granted?
      ensures Value(AddRa(store, ctx, members, rollcall, extra).store, k, c) >= 0
    {
      AddRaEffect(store, ctx, members, rollcall, extra, k, c);
    }
  }

  lemma AddWarNonNegative(store: Store, ctx: Ctx, members: string, rollcall: string)
    requires NonNegative(store)
    ensures AddWar(store, ctx, members, rollcall).Granted? ==> NonNegative(AddWar(store, ctx, members, rollcall).store)
  {
    forall k, c | AddWar(store, ctx, members, rollcall).Granted?
      ensures Value(AddWar(store, ctx, members, rollcall).store, k, c) >= 0
    {
      AddWarEffect(store, ctx, members, rollcall, k, c);
    }
  }

  lemma AddEveNonNegative(store: Store, ctx: Ctx, members: string, rollcall: string)
    requires NonNegative(store)
    ensures AddEve(store, ctx, members, rollcall).Granted? ==> NonNegative(AddEve(store, ctx, members, rollcall).store)
  {
    forall k, c | AddEve(store, ctx, members, rollcall).Granted?
      ensures Value(AddEve(store, ctx, members, rollcall).store, k, c) >= 0
    {
      AddEveEffect(store, ctx, members, rollcall, k, c);
    }
  }

  lemma AddAllNonNegative(store: Store, ctx: Ctx, member: nat, tp: nat, mp: nat)
    requires NonNegative(store)
    ensures AddAll(store, ctx, member, tp, mp).Granted? ==> NonNegative(AddAll(store, ctx, member, tp, mp).store)
  {
    forall k, c | AddAll(store, ctx, member, tp, mp).Granted?
      ensures Value(AddAll(store, ctx, member, tp, mp).store, k, c) >= 0
    {
      AddAllEffect(store, ctx, member, tp, mp, k, c);
    }
  }

  /** A removing command either refuses, or runs its loop and reports one line per mention. */
  datatype DelOutcome = DelRejected(why: Rejection) | Swept(store: Store, lines: seq<DelLine>)

  /** `/deltp members points` (with `c == TP`) and `/delmp members points`
      (with `c == MP`); Discord refuses `points` below 1. */
  function DelPoints(store: Store, ctx: Ctx, c: Category, members: string, points: int): DelOutcome
    requires points >= 1
  {
    if !HasFull(ctx.callerRoles) then DelRejected(NoPermission)
    else if |MentionIds(members)| == 0 then DelRejected(NoMentions)
    else
      var s := RemoveEach(store, ctx.guild, MentionIds(members), ctx.members, c, points);
      Swept(s.store, s.lines)
  }

  /** `/deltp` and `/delmp` write only with full permission and at least one
      mention; a member mentioned `n` times loses `n * points`, clamped at 0,
      and nothing else changes. */
  lemma DelPointsEffect(store: Store, ctx: Ctx, c: Category, members: string, points: int, k: Key, c': Category)
    requires points >= 1
    requires NonNegative(store)
    ensures DelPoints(store, ctx, c, members, points).Swept?
        <==> HasFull(ctx.callerRoles) && |MentionIds(members)| > 0
    ensures DelPoints(store, ctx, c, members, points).Swept? ==>
      Value(DelPoints(store, ctx, c, members, points).store, k, c')
        == if k.guild == ctx.guild && c' == c && k.user in ctx.members
           then Max0(Value(store, k, c') - Count(MentionIds(members), k.user) * points)
           else Value(store, k, c')
  {
    if HasFull(ctx.callerRoles) && |MentionIds(members)| > 0 {
      RemoveEachValue(store, ctx.guild, MentionIds(members), ctx.members, c, points, k, c');
    }
  }

  /** Removal keeps every stored value non-negative. */
  lemma DelPointsNonNegative(store: Store, ctx: Ctx, c: Category, members: string, points: int)
    requires points >= 1
    requires NonNegative(store)
    ensures DelPoints(store, ctx, c, members, points).Swept? ==> NonNegative(DelPoints(store, ctx, c, members, points).store)
  {
    if DelPoints(store, ctx, c, members, points).Swept? {
      forall k, c' ensures Value(DelPoints(store, ctx, c, members, points).store, k, c') >= 0 {
        DelPointsEffect(store, ctx, c, members, points, k, c');
      }
    }
  }

  /** `found_any`, which decides whether the command is logged: some line
      reports points taken exactly when some resolved mention actually lost
      points. */
  lemma FoundAnyMeaning(store: Store, ctx: Ctx, c: Category, members: string, points: int)
    requires points >= 1
    requires NonNegative(store)
    ensures var r := DelPoints(store, ctx, c, members, points);
            r.Swept? ==> (FoundAny(r.lines) <==> Dropped(store, r.store, ctx.guild, MentionIds(members), c))
  {
    if HasFull(ctx.callerRoles) && |MentionIds(members)| > 0 {
      RemoveEachFoundIff(store, ctx.guild, MentionIds(members), ctx.members, c, points);
    }
  }

  /** What `/deltp` and `/delmp` do as written: the same checks, then the
      loop that raises at the first resolved mention without a document,
      keeping the removals already made and sending no summary. */
  datatype DelRun = DelRunRejected(why: Rejection) | DelRaised(store: Store) | DelSent(store: Store, lines: seq<DelLine>)

  function DelPointsAsWritten(store: Store, ctx: Ctx, c: Category, members: string, points: int): DelRun
    requires points >= 1
  {
    if !HasFull(ctx.callerRoles) then DelRunRejected(NoPermission)
    else if |MentionIds(members)| == 0 then DelRunRejected(NoMentions)
    else
      match RemoveEachAsWritten(store, ctx.guild, MentionIds(members), ctx.members, c, points)
      case Raised(s) => DelRaised(s)
      case Completed(sw) => DelSent(sw.store, sw.lines)
  }

  /** The commands as written and the corrected ones refuse alike, and when
      every resolved mention has a document they do exactly the same. */
  lemma DelPointsAsWrittenAgrees(store: Store, ctx: Ctx, c: Category, members: string, points: int)
    requires points >= 1
    requires Documented(store, ctx.guild, MentionIds(members), ctx.members)
    ensures DelPointsAsWritten(store, ctx, c, members, points).DelRunRejected?
        <==> DelPoints(store, ctx, c, members, points).DelRejected?
    ensures DelPoints(store, ctx, c, members, points).Swept? ==>
      DelPointsAsWritten(store, ctx, c, members, points)
        == DelSent(DelPoints(store, ctx, c, members, points).store, DelPoints(store, ctx, c, members, points).lines)
  {
    var ids := MentionIds(members);
    if HasFull(ctx.callerRoles) && |ids| > 0 {
      RemoveEachAsWrittenAgrees(store, ctx.guild, ids, ctx.members, c, points);
    }
  }

  /** With a resolved mention that has no document, the commands as written
      raise, after processing exactly the mentions before it. */
  lemma DelPointsAsWrittenRaises(store: Store, ctx: Ctx, c: Category, members: string, points: int, i: nat)
    requires points >= 1
    requires HasFull(ctx.callerRoles)
    requires i < |MentionIds(members)| && MentionIds(members)[i] in ctx.members
    requires Key(ctx.guild, MentionIds(members)[i]) !in store
    requires Documented(store, ctx.guild, MentionIds(members)[..i], ctx.members)
    ensures DelPointsAsWritten(store, ctx, c, members, points)
         == DelRaised(RemoveEach(store, ctx.guild, MentionIds(members)[..i], ctx.members, c, points).store)
  {
    RemoveEachAsWrittenRaises(store, ctx.guild, MentionIds(members), ctx.members, c, points, i);
  }
}
