/**
  Protection statuses and the status resolver of the timeline: a scope-to-level
  map (`{"edit": "sysop", "move": "sysop"}`) becomes one status by a fixed precedence.
*/
module ProtectionStatus {
  import opened Wrappers

  /** The closed set of status strings the module reports. */
  datatype Status =
    | Unprotected
    | SemiProtected
    | ExtendedProtected
    | FullyProtected
    | MoveProtected
    | CustomProtection
    | Missing
  {
    /** The exact string the source uses for this status. */
    function Name(): string {
      match this
      case Unprotected => "unprotected"
      case SemiProtected => "semi-protected"
      case ExtendedProtected => "extended-protected"
      case FullyProtected => "fully protected"
      case MoveProtected => "move-protected"
      case CustomProtection => "custom protection"
      case Missing => "missing"
    }
  }

  /** Distinct statuses are reported as distinct strings, so a status can be read back from its name. */
  lemma NameIsInjective(a: Status, b: Status)
    ensures a.Name() == b.Name() ==> a == b
  {
  }

  /**
    One protection entry as the wiki API reports it (`{"type": "edit", "level": "sysop", ...}`),
    in a page's current protections and in a log event's details. Either key may be absent.
    The "type" key is called `scope` here (`type` is a keyword of Dafny).
  */
  datatype ProtEntry = ProtEntry(scope: Option<string>, level: Option<string>)

  /** A scope-to-level map, the dictionary the source builds per log event. */
  type LevelMap = map<string, string>

  /** The five statuses a level map can resolve to. */
  predicate IsTimelineStatus(s: Status) {
    s != CustomProtection && s != Missing
  }

  /**
    `resolve_status`: edit=sysop, then edit=extendedconfirmed, then
    edit=autoconfirmed, then move=sysop; anything else is unprotected.
    Scopes other than edit and move are never looked at.
  */
  function ResolveStatus(prot: LevelMap): (r: Status)
    ensures IsTimelineStatus(r)
    ensures r == FullyProtected <==> Get(prot, "edit") == Some("sysop")
    ensures r == ExtendedProtected <==> Get(prot, "edit") == Some("extendedconfirmed")
    ensures r == SemiProtected <==> Get(prot, "edit") == Some("autoconfirmed")
    ensures r == MoveProtected <==>
      && Get(prot, "edit") !in {Some("sysop"), Some("extendedconfirmed"), Some("autoconfirmed")}
      && Get(prot, "move") == Some("sysop")
  {
    var edit := Get(prot, "edit");
    var move := Get(prot, "move");
    if edit == Some("sysop") then FullyProtected
    else if edit == Some("extendedconfirmed") then ExtendedProtected
    else if edit == Some("autoconfirmed") then SemiProtected
    else if move == Some("sysop") then MoveProtected
    else Unprotected
  }

  /** The resolver reads only the "edit" and "move" entries of the map. */
  lemma ResolveReadsEditAndMoveOnly(p: LevelMap, q: LevelMap)
    requires Get(p, "edit") == Get(q, "edit") && Get(p, "move") == Get(q, "move")
    ensures ResolveStatus(p) == ResolveStatus(q)
  {
  }

  /** An edit restriction outranks a move restriction: `{edit: sysop, move: sysop}` is fully protected. */
  lemma EditOutranksMove()
    ensures ResolveStatus(map["edit" := "sysop", "move" := "sysop"]) == FullyProtected
    ensures ResolveStatus(map["move" := "sysop"]) == MoveProtected
    ensures ResolveStatus(map[]) == Unprotected
    ensures ResolveStatus(map["edit" := "templateeditor"]) == Unprotected
  {
  }
}
