/** The bottom hub's icon for each workspace. */
module WorkspaceIcons {
  import opened Wrappers
  import opened Unicode

  /**
   * What the shell says of a client: whether it is a taskbar window, its workspace number if it is an
   * integer, its address and its icon.
   */
  datatype Client = Client(taskbar: bool, workspace: Option<int>, address: Text, icon: Text)

  predicate Eligible(client: Client, id: int) {
    client.taskbar && client.workspace == Some(id) && id > 0 && client.icon != []
  }

  predicate Active(client: Client, activeAddress: Text) { activeAddress != [] && client.address == activeAddress }

  /** Whether a client may give workspace `id` its icon; with `activeOnly`, as the active window. */
  predicate Candidate(client: Client, id: int, activeAddress: Text, activeOnly: bool) {
    Eligible(client, id) && (activeOnly ==> Active(client, activeAddress))
  }

  /** The first candidate. */
  function FirstCandidate(clients: seq<Client>, id: int, activeAddress: Text, activeOnly: bool): (first: Option<nat>)
    ensures first.Some? ==>
      && first.value < |clients| && Candidate(clients[first.value], id, activeAddress, activeOnly)
      && forall j :: 0 <= j < first.value ==> !Candidate(clients[j], id, activeAddress, activeOnly)
    ensures first.None? ==> forall j :: 0 <= j < |clients| ==> !Candidate(clients[j], id, activeAddress, activeOnly)
  {
    if clients == [] then None
    else if Candidate(clients[0], id, activeAddress, activeOnly) then Some(0)
    else
      var later := FirstCandidate(clients[1..], id, activeAddress, activeOnly);
      if later.None? then None else Some(later.value + 1)
  }

  /**
   * The icon of the first eligible client at the active address if there is one, otherwise of the first
   * eligible client.
   */
  function IconFor(clients: seq<Client>, id: int, activeAddress: Text): Option<Text> {
    var active := FirstCandidate(clients, id, activeAddress, true);
    var eligible := FirstCandidate(clients, id, activeAddress, false);
    if active.Some? then Some(clients[active.value].icon)
    else if eligible.Some? then Some(clients[eligible.value].icon)
    else None
  }

  lemma OneMoreClient(clients: seq<Client>, client: Client, id: int, activeAddress: Text, activeOnly: bool)
    ensures FirstCandidate(clients + [client], id, activeAddress, activeOnly) ==
            if FirstCandidate(clients, id, activeAddress, activeOnly).Some?
              then FirstCandidate(clients, id, activeAddress, activeOnly)
            else if Candidate(client, id, activeAddress, activeOnly) then Some(|clients|) else None
  {
    var more, before := clients + [client], FirstCandidate(clients, id, activeAddress, activeOnly);
    assert more[|clients|] == client && forall j :: 0 <= j < |clients| ==> more[j] == clients[j];
    hide FirstCandidate, Candidate;
    if before.Some? {
      FirstIs(more, id, activeAddress, activeOnly, before.value);
    } else if Candidate(client, id, activeAddress, activeOnly) {
      FirstIs(more, id, activeAddress, activeOnly, |clients|);
    }
  }

  lemma FirstIs(clients: seq<Client>, id: int, activeAddress: Text, activeOnly: bool, k: nat)
    requires k < |clients| && Candidate(clients[k], id, activeAddress, activeOnly)
    requires forall j :: 0 <= j < k ==> !Candidate(clients[j], id, activeAddress, activeOnly)
    ensures FirstCandidate(clients, id, activeAddress, activeOnly) == Some(k)
  {
    hide FirstCandidate, Candidate;
    var first := FirstCandidate(clients, id, activeAddress, activeOnly);
    assert first.Some?;
  }

  /**
   * The icon changes only for the workspace of the new client, and only if that was empty or had no active
   * window yet.
   */
  lemma IconGrows(clients: seq<Client>, client: Client, id: int, activeAddress: Text)
    ensures IconFor(clients + [client], id, activeAddress) ==
            if Candidate(client, id, activeAddress, false)
               && (IconFor(clients, id, activeAddress).None?
                   || (Active(client, activeAddress) && FirstCandidate(clients, id, activeAddress, true).None?))
            then Some(client.icon) else IconFor(clients, id, activeAddress)
  {
    hide FirstCandidate;
    OneMoreClient(clients, client, id, activeAddress, true);
    OneMoreClient(clients, client, id, activeAddress, false);
  }

  /** The loop's state for one workspace: its icon, and whether the icon is an active window's. */
  ghost predicate Tracks(icons: map<int, Text>, active: set<int>, clients: seq<Client>, activeAddress: Text, id: int) {
    && (id in icons <==> IconFor(clients, id, activeAddress).Some?)
    && (id in icons ==> Some(icons[id]) == IconFor(clients, id, activeAddress))
    && (id in active <==> FirstCandidate(clients, id, activeAddress, true).Some?)
  }

  method WorkspaceAppIcons(clients: seq<Client>, activeAddress: Text) returns (icons: map<int, Text>)
    ensures forall id :: id in icons <==> IconFor(clients, id, activeAddress).Some?
    ensures forall id :: id in icons ==> Some(icons[id]) == IconFor(clients, id, activeAddress)
  {
    icons := map[];
    var activeWorkspaceIds: set<int> := {};
    for n := 0 to |clients|
      invariant forall id :: Tracks(icons, activeWorkspaceIds, clients[..n], activeAddress, id)
    {
      var client := clients[n];
      ghost var icons0, active0 := icons, activeWorkspaceIds;
      if client.taskbar && client.workspace.Some? && client.workspace.value > 0 && client.icon != [] {
        var id := client.workspace.value;
        var isActive := Active(client, activeAddress);
        if !(id in icons && (!isActive || id in activeWorkspaceIds)) {
          icons := icons[id := client.icon];
          if isActive {
            activeWorkspaceIds := activeWorkspaceIds + {id};
          }
        }
      }
      ghost var seen, more := clients[..n], clients[..n + 1];
      assert more == seen + [client];
      hide IconFor, FirstCandidate;
      forall id ensures Tracks(icons, activeWorkspaceIds, more, activeAddress, id) {
        assert Tracks(icons0, active0, seen, activeAddress, id);
        IconGrows(seen, client, id, activeAddress);
        OneMoreClient(seen, client, id, activeAddress, true);
      }
    }
    assert clients[..|clients|] == clients;
    forall id
      ensures id in icons <==> IconFor(clients, id, activeAddress).Some?
      ensures id in icons ==> Some(icons[id]) == IconFor(clients, id, activeAddress)
    {
      assert Tracks(icons, activeWorkspaceIds, clients, activeAddress, id);
    }
  }

  /** A client that may stand for a workspace. */
  predicate StandsFor(client: Client, id: int) {
    client.taskbar && client.workspace == Some(id) && id >= 1 && client.icon != []
  }

  /**
   * The client whose icon a workspace shows: the first one at the active address that may stand for it, or the
   * first one of all if none is at the active address.
   */
  ghost predicate IsChosen(clients: seq<Client>, id: int, activeAddress: Text, k: nat) {
    && k < |clients| && StandsFor(clients[k], id)
    && if clients[k].address == activeAddress && activeAddress != [] then
         forall j :: 0 <= j < k && StandsFor(clients[j], id) ==> clients[j].address != activeAddress
       else
         && (forall j :: 0 <= j < k ==> !StandsFor(clients[j], id))
         && (activeAddress != [] ==>
               forall j :: 0 <= j < |clients| && StandsFor(clients[j], id) ==> clients[j].address != activeAddress)
  }

  lemma IconMeans(clients: seq<Client>, id: int, activeAddress: Text, icon: Text)
    ensures IconFor(clients, id, activeAddress) == Some(icon) <==>
            exists k: nat :: IsChosen(clients, id, activeAddress, k) && clients[k].icon == icon
  {
    var active := FirstCandidate(clients, id, activeAddress, true);
    var eligible := FirstCandidate(clients, id, activeAddress, false);
    hide FirstCandidate;
    forall j | 0 <= j < |clients|
      ensures StandsFor(clients[j], id) <==> Candidate(clients[j], id, activeAddress, false)
    {}
    if active.Some? {
      assert IsChosen(clients, id, activeAddress, active.value);
    } else if eligible.Some? {
      assert IsChosen(clients, id, activeAddress, eligible.value);
    }
    forall k: nat, l: nat | IsChosen(clients, id, activeAddress, k) && IsChosen(clients, id, activeAddress, l)
      ensures k == l
    {
      ChosenOnce(clients, id, activeAddress, k, l);
    }
  }

  lemma ChosenOnce(clients: seq<Client>, id: int, activeAddress: Text, k: nat, l: nat)
    requires IsChosen(clients, id, activeAddress, k) && IsChosen(clients, id, activeAddress, l)
    ensures k == l
  {}

  lemma NoIconMeans(clients: seq<Client>, id: int, activeAddress: Text)
    ensures IconFor(clients, id, activeAddress).None? <==>
            forall j :: 0 <= j < |clients| ==> !StandsFor(clients[j], id)
  {
    hide FirstCandidate;
    forall j | 0 <= j < |clients|
      ensures StandsFor(clients[j], id) <==> Candidate(clients[j], id, activeAddress, false)
    {}
  }
}
