/**
 Which pane a transfer was authorised for (image_transfer.rs), and the check that
 the authority still holds before anything is typed.
 */
module TransferAuthority {
  import opened Common

  datatype Transport = LocalTransport | SystemSsh(destination: string) | Unknown

  /** A tab's panes with whether each is a terminal. */
  datatype Tab = Tab(id: Uuid, panes: map<Uuid, bool>)

  datatype Workspace = Workspace(id: Uuid, tabs: seq<Tab>)

  datatype Snapshot = Snapshot(workspaces: seq<Workspace>, transports: map<Uuid, Transport>)

  datatype Target = LocalTarget | Ssh(destination: string)

  datatype Authority = Authority(workspace: Uuid, tab: Uuid, pane: Uuid, target: Target)

  datatype AuthorityError = NotTerminal | NoTransport | PaneMissing | Changed

  // ------------------------------------------------------------ specification

  datatype Place = Place(workspace: Uuid, tab: Tab)

  function TabPlaces(workspace: Uuid, tabs: seq<Tab>): seq<Place> {
    if tabs == [] then [] else [Place(workspace, tabs[0])] + TabPlaces(workspace, tabs[1..])
  }

  /** Every tab of the session with its workspace, in display order. */
  function Places(workspaces: seq<Workspace>): seq<Place> {
    if workspaces == [] then [] else TabPlaces(workspaces[0].id, workspaces[0].tabs) + Places(workspaces[1..])
  }

  function FirstHolding(places: seq<Place>, pane: Uuid): (r: Option<Place>)
    ensures r.Some? ==> r.value in places && pane in r.value.tab.panes
    ensures r.None? ==> forall p :: p in places ==> pane !in p.tab.panes
  {
    if places == [] then None
    else if pane in places[0].tab.panes then Some(places[0])
    else FirstHolding(places[1..], pane)
  }

  function AuthorityAt(snapshot: Snapshot, place: Place, pane: Uuid): Result<Authority, AuthorityError>
    requires pane in place.tab.panes
  {
    if !place.tab.panes[pane] then Err(NotTerminal)
    else if pane !in snapshot.transports then Err(NoTransport)
    else match snapshot.transports[pane]
      case LocalTransport => Ok(Authority(place.workspace, place.tab.id, pane, LocalTarget))
      case SystemSsh(destination) => Ok(Authority(place.workspace, place.tab.id, pane, Ssh(destination)))
      case Unknown => Err(NoTransport)
  }

  /** The first tab that holds the pane decides. */
  function AuthorityFor(snapshot: Snapshot, pane: Uuid): Result<Authority, AuthorityError> {
    match FirstHolding(Places(snapshot.workspaces), pane)
    case None => Err(PaneMissing)
    case Some(place) => AuthorityAt(snapshot, place, pane)
  }

  /** Tab `t` of workspace `w` holds the pane. */
  ghost predicate Holds(workspaces: seq<Workspace>, pane: Uuid, w: nat, t: nat) {
    w < |workspaces| && t < |workspaces[w].tabs| && pane in workspaces[w].tabs[t].panes
  }

  /** It is the first to do so in display order. */
  ghost predicate HoldsFirst(workspaces: seq<Workspace>, pane: Uuid, w: nat, t: nat) {
    && Holds(workspaces, pane, w, t)
    && forall v, u :: Holds(workspaces, pane, v, u) ==> w < v || (w == v && t <= u)
  }

  lemma {:induction false} FirstInTabs(workspace: Uuid, tabs: seq<Tab>, rest: seq<Place>, pane: Uuid) returns (t: nat)
    ensures t <= |tabs| && forall u :: 0 <= u < t ==> pane !in tabs[u].panes
    ensures t < |tabs| ==> pane in tabs[t].panes
    ensures FirstHolding(TabPlaces(workspace, tabs) + rest, pane)
         == if t < |tabs| then Some(Place(workspace, tabs[t])) else FirstHolding(rest, pane)
  {
    if tabs == [] {
      assert [] + rest == rest;
      return 0;
    }
    NextPlace(workspace, tabs, rest, pane);
    if pane in tabs[0].panes {
      return 0;
    }
    t := FirstInTabs(workspace, tabs[1..], rest, pane);
    t := t + 1;
  }

  lemma {:induction false} FirstInWorkspaces(workspaces: seq<Workspace>, pane: Uuid) returns (w: nat, t: nat)
    ensures match FirstHolding(Places(workspaces), pane)
      case None => forall v, u :: !Holds(workspaces, pane, v, u)
      case Some(place) => HoldsFirst(workspaces, pane, w, t) && place == Place(workspaces[w].id, workspaces[w].tabs[t])
  {
    if workspaces == [] {
      return 0, 0;
    }
    var head, rest := workspaces[0], workspaces[1..];
    t := FirstInTabs(head.id, head.tabs, Places(rest), pane);
    if t < |head.tabs| {
      assert HoldsFirst(workspaces, pane, 0, t);
      return 0, t;
    }
    w, t := FirstInWorkspaces(rest, pane);
    assert forall v: nat, u: nat :: Holds(workspaces, pane, v, u) ==> v > 0 && Holds(rest, pane, v - 1, u);
    w := w + 1;
  }

  /** A pane's transfer is authorised exactly if the first tab that holds it has it
      as a terminal whose transport is the local machine or a named SSH host. */
  lemma AuthorisedIff(snapshot: Snapshot, pane: Uuid, authority: Authority)
    ensures AuthorityFor(snapshot, pane) == Ok(authority) <==>
      exists w: nat, t: nat :: HoldsFirst(snapshot.workspaces, pane, w, t)
        && var workspace := snapshot.workspaces[w];
        workspace.tabs[t].panes[pane] && pane in snapshot.transports
        && authority.workspace == workspace.id && authority.tab == workspace.tabs[t].id && authority.pane == pane
        && snapshot.transports[pane] == match authority.target {
             case LocalTarget => LocalTransport
             case Ssh(destination) => SystemSsh(destination)
           }
  {
    hide Places;
    var w, t := FirstInWorkspaces(snapshot.workspaces, pane);
    assert forall v: nat, u: nat ::
      HoldsFirst(snapshot.workspaces, pane, v, u) && HoldsFirst(snapshot.workspaces, pane, w, t) ==> v == w && u == t;
  }

  // ----------------------------------------------------------- implementation

  /** The nested scan of `transfer_authority_for_pane`. */
  method TransferAuthorityForPane(snapshot: Snapshot, pane: Uuid) returns (r: Result<Authority, AuthorityError>)
    ensures r == AuthorityFor(snapshot, pane)
  {
    for w := 0 to |snapshot.workspaces|
      invariant FirstHolding(Places(snapshot.workspaces), pane) == FirstHolding(Places(snapshot.workspaces[w..]), pane)
    {
      var workspace := snapshot.workspaces[w];
      assert snapshot.workspaces[w..][1..] == snapshot.workspaces[w + 1..];
      for t := 0 to |workspace.tabs|
        invariant FirstHolding(Places(snapshot.workspaces), pane)
               == FirstHolding(TabPlaces(workspace.id, workspace.tabs[t..]) + Places(snapshot.workspaces[w + 1..]), pane)
      {
        var tab := workspace.tabs[t];
        NextPlace(workspace.id, workspace.tabs[t..], Places(snapshot.workspaces[w + 1..]), pane);
        assert workspace.tabs[t..][1..] == workspace.tabs[t + 1..];
        if pane in tab.panes {
          if !tab.panes[pane] {
            return Err(NotTerminal);
          }
          if pane !in snapshot.transports || snapshot.transports[pane] == Unknown {
            return Err(NoTransport);
          }
          var target := match snapshot.transports[pane]
            case LocalTransport => LocalTarget
            case SystemSsh(destination) => Ssh(destination);
          return Ok(Authority(workspace.id, tab.id, pane, target));
        }
      }
      assert [] + Places(snapshot.workspaces[w + 1..]) == Places(snapshot.workspaces[w + 1..]);
    }
    return Err(PaneMissing);
  }

  lemma NextPlace(workspace: Uuid, tabs: seq<Tab>, rest: seq<Place>, pane: Uuid)
    requires tabs != []
    ensures FirstHolding(TabPlaces(workspace, tabs) + rest, pane)
         == if pane in tabs[0].panes then Some(Place(workspace, tabs[0]))
            else FirstHolding(TabPlaces(workspace, tabs[1..]) + rest, pane)
  {
    var places := TabPlaces(workspace, tabs) + rest;
    assert places[0] == Place(workspace, tabs[0]);
    assert places[1..] == TabPlaces(workspace, tabs[1..]) + rest;
  }

  /** `revalidate_transfer_authority`. */
  function Revalidate(snapshot: Snapshot, expected: Authority): Result<(), AuthorityError> {
    match AuthorityFor(snapshot, expected.pane)
    case Err(e) => Err(e)
    case Ok(current) =>
      if current.workspace != expected.workspace || current.tab != expected.tab || current.target != expected.target
      then Err(Changed)
      else Ok(())
  }

  /** Revalidation accepts exactly the snapshots that would grant the same
      authority again. */
  lemma RevalidateIff(snapshot: Snapshot, expected: Authority)
    ensures Revalidate(snapshot, expected).Ok? <==> AuthorityFor(snapshot, expected.pane) == Ok(expected)
  {
  }
}
