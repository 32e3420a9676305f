/** Who may run the point commands, and the roll-call link check the
    commands apply to their `rollcall` argument. */
module Access {
  import opened Text

  /** Roles allowed to run the basic commands (LEADERSHIP, Gray Council, TGO | Staff). */
  const BasicRoleIds: set<nat> := {1381235438563491841, 1399751111602212884, 1381244026790871111}

  /** Roles allowed to run every command (LEADERSHIP, Gray Council). */
  const FullRoleIds: set<nat> := {1381235438563491841, 1399751111602212884}

  /** `has_basic_permission`: some role of the member is a basic role. */
  predicate HasBasic(roles: seq<nat>)
  {
    exists i :: 0 <= i < |roles| && roles[i] in BasicRoleIds
  }

  /** `has_full_permission`: some role of the member is a full role. Every
      full role is also a basic role, so full permission includes basic. */
  predicate HasFull(roles: seq<nat>)
    ensures HasFull(roles) ==> HasBasic(roles)
  {
    exists i :: 0 <= i < |roles| && roles[i] in FullRoleIds
  }

  /** A member without roles has no permission at all. */
  lemma NoRolesNoPermission()
    ensures !HasBasic([]) && !HasFull([])
  {
  }

  /** The only roles whose holders may run basic commands but not the admin ones. */
  lemma StaffIsBasicOnly(roles: seq<nat>)
    requires HasBasic(roles) && !HasFull(roles)
    ensures exists i :: 0 <= i < |roles| && roles[i] == 1381244026790871111
  {
    var i :| 0 <= i < |roles| && roles[i] in BasicRoleIds;
    assert roles[i] !in FullRoleIds;
  }

  const DiscordPrefix: string := "https://discord.com"

  /** The link check: after stripping surrounding whitespace, the link begins with the Discord prefix. */
  predicate LinkOk(link: string)
  {
    StartsWith(Strip(link), DiscordPrefix)
  }

  /** The roll-call check of a command. Where `allowEmpty` holds the code
      tests `if rollcall and not ...`, so an empty link passes; otherwise the
      link itself must pass. */
  predicate RollcallOk(link: string, allowEmpty: bool)
  {
    if allowEmpty then link == [] || LinkOk(link) else LinkOk(link)
  }

  /** `link` holds the Discord prefix at `j`, with only whitespace before it. */
  predicate PrefixAfterBlanks(link: string, j: int)
  {
    0 <= j <= |link| - |DiscordPrefix| && OccursAt(link, DiscordPrefix, j)
    && forall i :: 0 <= i < j ==> IsSpace(link[i])
  }

  /** A link passes exactly when it begins, after leading whitespace, with
      the Discord prefix; the lenient and the strict check differ only on the
      empty link. */
  lemma RollcallMeaning(link: string)
    ensures LinkOk(link) <==> exists j :: PrefixAfterBlanks(link, j)
    ensures RollcallOk(link, true) <==> link == [] || RollcallOk(link, false)
    ensures !RollcallOk([], false)
  {
    if LinkOk(link) {
      var j := |link| - |TrimLeft(link)|;
      StripPrefixOccurs(link, DiscordPrefix);
      assert PrefixAfterBlanks(link, j);
    }
    if exists j :: PrefixAfterBlanks(link, j) {
      var j :| PrefixAfterBlanks(link, j);
      PrefixAfterBlanksPasses(link, j);
    }
    assert Strip([]) == [];
  }

  /** The Discord prefix after a run of whitespace survives `strip()`. */
  lemma PrefixAfterBlanksPasses(link: string, j: nat)
    requires j + |DiscordPrefix| <= |link|
    requires OccursAt(link, DiscordPrefix, j)
    requires forall i :: 0 <= i < j ==> IsSpace(link[i])
    ensures LinkOk(link)
  {
    assert DiscordPrefix[0] == 'h' && DiscordPrefix[|DiscordPrefix| - 1] == 'm';
    StripKeepsPrefix(link, DiscordPrefix, j);
  }

  /** A non-empty whitespace-only link is neither empty nor valid, so every
      command rejects it. */
  lemma BlankRollcallRejected(link: string)
    requires |link| > 0
    requires forall i :: 0 <= i < |link| ==> IsSpace(link[i])
    ensures !RollcallOk(link, true) && !RollcallOk(link, false)
  {
    assert TrimLeft(link) == [];
  }
}
