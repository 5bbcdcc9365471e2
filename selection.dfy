/** The two selection workflows of `GameClient` in src/lcu.rs, `set_skin`
    and `set_chroma`. Each reads the local API in a fixed order, filters and
    matches the answers, submits at most one id through the `my-selection`
    PATCH, and maps every failure to a fixed message.
    The API's answers are inputs (`Lcu`); the random choice is an index `k`;
    each run returns its ending together with the requests it made. */
module Selection {
  import opened Results
  import HexColor

  /** Why a `call_*` method failed: the request, or decoding its JSON. */
  datatype CallError = Transport | Decode

  datatype Summoner = Summoner(accountId: int, summonerId: int)
  datatype Chroma = Chroma(id: int, colors: seq<string>, owned: bool)
  datatype Skin = Skin(id: int, name: string, chromas: seq<Chroma>)
  datatype TeamMember = TeamMember(summonerId: int, championId: int, selectedSkinId: int)
  datatype ChampSelectSession = ChampSelectSession(myTeam: seq<TeamMember>)

  /** What the local API answers during one workflow: whether `/help`
      answers (`status`), then each endpoint's decoded value or error.
      The PATCH fails only when the request cannot be sent; an HTTP error
      status counts as success. */
  datatype Lcu = Lcu(
    online: bool,
    summoner: Result<Summoner, CallError>,
    pickableSkinIds: Result<seq<int>, CallError>,
    currentChampion: Result<int, CallError>,
    session: Result<ChampSelectSession, CallError>,
    skins: Result<seq<Skin>, CallError>,
    mySelection: Result<(), CallError>)

  /** The requests a workflow makes, in the order it makes them. */
  datatype Call =
    | GetHelp
    | GetSummonerIds
    | GetPickableSkinIds
    | GetCurrentChampion
    | GetSession
    | GetSkins(summonerId: int, championId: int)
    | PatchMySelection(selectedSkinId: int)

  /** How a workflow ends: its `Ok` value, its `Err` message, or a panic. */
  datatype Ending<T> = Returned(value: T) | Failed(message: string) | Panicked

  datatype Run<T> = Run(ending: Ending<T>, calls: seq<Call>)

  const Offline: string := "LeagueClient not found!"
  const NoSummonerId: string := "Failed getting summoner id!"
  const NotInChampSelect: string := "Not in champion select!"
  const ChampionNotPicked: string := "Champion not picked yet!"
  const NoSkins: string := "No skins available!"
  const SkinSubmitFailed: string := "Failed changing skin!"
  const SkinNotPicked: string := "Skin not picked!"
  const NoChroma: string := "No chroma available!"
  const ChromaSubmitFailed: string := "Failed setting chroma"
  const ChromaRandomized: string := "Chroma Randomized!"
  const InvalidColor: string := "Invalid color format"

  /** The id sent by the first `my-selection` request, if any was made. */
  function Submitted(calls: seq<Call>): (r: Option<int>)
    ensures r.None? <==> forall i :: 0 <= i < |calls| ==> !calls[i].PatchMySelection?
    ensures r.Some? ==> PatchMySelection(r.value) in calls
  {
    if calls == [] then None
    else if calls[0].PatchMySelection? then Some(calls[0].selectedSkinId)
    else Submitted(calls[1..])
  }

  /** The id submitted is the first PATCH's: every request before it is a read. */
  lemma {:induction false} SubmittedIsFirst(calls: seq<Call>, i: nat)
    requires i < |calls| && calls[i].PatchMySelection?
    requires forall j :: 0 <= j < i ==> !calls[j].PatchMySelection?
    ensures Submitted(calls) == Some(calls[i].selectedSkinId)
    decreases i
  {
    if i > 0 {
      SubmittedIsFirst(calls[1..], i - 1);
    }
  }

  /** `SliceRandom::choose` on a non-empty slice, the random index given
      as `k` (reduced modulo the length). */
  function Pick<T>(xs: seq<T>, k: nat): (x: T)
    requires xs != []
    ensures x in xs
    ensures k < |xs| ==> x == xs[k]
  {
    xs[k % |xs|]
  }

  // ---------------------------------------------------------------------
  // set_skin

  /** The skins of the inventory whose id is pickable, as (id, name), in
      inventory order. */
  function SkinCandidates(skins: seq<Skin>, pickable: seq<int>): (c: seq<(int, string)>)
    ensures |c| <= |skins|
    ensures forall p :: p in c <==> exists s :: s in skins && s.id in pickable && p == (s.id, s.name)
  {
    if skins == [] then []
    else
      (if skins[0].id in pickable then [(skins[0].id, skins[0].name)] else [])
        + SkinCandidates(skins[1..], pickable)
  }

  /** Filtering keeps the inventory's order: it distributes over `+`. */
  lemma {:induction false} SkinCandidatesAppend(a: seq<Skin>, b: seq<Skin>, pickable: seq<int>)
    ensures SkinCandidates(a + b, pickable) == SkinCandidates(a, pickable) + SkinCandidates(b, pickable)
  {
    if a != [] {
      assert (a + b)[1..] == a[1..] + b;
      SkinCandidatesAppend(a[1..], b, pickable);
    } else {
      assert a + b == b;
    }
  }

  /** `set_skin`. */
  function SetSkin(lcu: Lcu, k: nat): (run: Run<string>)
    ensures run.calls != [] && run.calls[0] == GetHelp
    ensures run.ending != Panicked
    ensures !lcu.online ==> run == Run(Failed(Offline), [GetHelp])
    ensures lcu.online && lcu.summoner.Err? ==>
      run == Run(Failed(NoSummonerId), [GetHelp, GetSummonerIds])
    ensures lcu.online && lcu.summoner.Ok? && lcu.pickableSkinIds.Err? ==>
      run == Run(Failed(NotInChampSelect), [GetHelp, GetSummonerIds, GetPickableSkinIds])
    ensures lcu.online && lcu.summoner.Ok? && lcu.pickableSkinIds.Ok? && lcu.currentChampion.Err? ==>
      run == Run(Failed(NotInChampSelect), [GetHelp, GetSummonerIds, GetPickableSkinIds, GetCurrentChampion])
    ensures lcu.online && lcu.summoner.Ok? && lcu.pickableSkinIds.Ok? && lcu.currentChampion.Ok? ==>
      && |run.calls| >= 5
      && run.calls[..5] == [GetHelp, GetSummonerIds, GetPickableSkinIds, GetCurrentChampion,
                            GetSkins(lcu.summoner.value.summonerId, lcu.currentChampion.value)]
      && (lcu.skins.Err? ==> run == Run(Failed(ChampionNotPicked), run.calls[..5]))
      // An empty intersection is reported, and nothing after the inventory is requested.
      && (lcu.skins.Ok? && SkinCandidates(lcu.skins.value, lcu.pickableSkinIds.value) == [] ==>
            run == Run(Failed(NoSkins), run.calls[..5]))
    // Without candidates nothing is submitted, whichever step ends the run.
    ensures (lcu.pickableSkinIds.Ok? && lcu.skins.Ok?
             && SkinCandidates(lcu.skins.value, lcu.pickableSkinIds.value) == []) ==>
      Submitted(run.calls).None? && !run.ending.Returned?
    // A submission is always the last request, and of a pickable, owned skin.
    ensures Submitted(run.calls).Some? ==>
      && |run.calls| == 6 && run.calls[5] == PatchMySelection(Submitted(run.calls).value)
      && lcu.pickableSkinIds.Ok? && lcu.skins.Ok?
      && Submitted(run.calls).value in lcu.pickableSkinIds.value
      && exists s :: s in lcu.skins.value && s.id == Submitted(run.calls).value
    // Success: every step answered, and the name returned is the submitted skin's.
    ensures run.ending.Returned? <==>
      && lcu.online && lcu.summoner.Ok? && lcu.pickableSkinIds.Ok? && lcu.currentChampion.Ok?
      && lcu.skins.Ok? && SkinCandidates(lcu.skins.value, lcu.pickableSkinIds.value) != []
      && lcu.mySelection.Ok?
    ensures run.ending.Returned? ==>
      && Submitted(run.calls).Some?
      && (Submitted(run.calls).value, run.ending.value) in SkinCandidates(lcu.skins.value, lcu.pickableSkinIds.value)
    ensures run.ending == Failed(SkinSubmitFailed) <==>
      Submitted(run.calls).Some? && lcu.mySelection.Err?
  {
    if !lcu.online then Run(Failed(Offline), [GetHelp])
    else if lcu.summoner.Err? then Run(Failed(NoSummonerId), [GetHelp, GetSummonerIds])
    else if lcu.pickableSkinIds.Err? then
      Run(Failed(NotInChampSelect), [GetHelp, GetSummonerIds, GetPickableSkinIds])
    else if lcu.currentChampion.Err? then
      Run(Failed(NotInChampSelect), [GetHelp, GetSummonerIds, GetPickableSkinIds, GetCurrentChampion])
    else
      var requests := [GetHelp, GetSummonerIds, GetPickableSkinIds, GetCurrentChampion,
                    GetSkins(lcu.summoner.value.summonerId, lcu.currentChampion.value)];
      assert requests[..5] == requests;
      if lcu.skins.Err? then Run(Failed(ChampionNotPicked), requests)
      else
        var candidates := SkinCandidates(lcu.skins.value, lcu.pickableSkinIds.value);
        if candidates == [] then Run(Failed(NoSkins), requests)
        else
          var (id, name) := Pick(candidates, k);
          var calls := requests + [PatchMySelection(id)];
          assert calls[..5] == requests;
          SubmittedAfterRequests(requests, PatchMySelection(id));
          if lcu.mySelection.Err? then Run(Failed(SkinSubmitFailed), calls)
          else Run(Returned(name), calls)
  }

  /** Whatever the random index `k`, the candidate it picks is submitted,
      and its name is returned if the PATCH goes through; since `Pick`
      reaches every candidate, every candidate can be the one chosen. */
  lemma EverySkinCanBeChosen(lcu: Lcu, k: nat)
    requires lcu.online && lcu.summoner.Ok? && lcu.pickableSkinIds.Ok? && lcu.currentChampion.Ok? && lcu.skins.Ok?
    requires SkinCandidates(lcu.skins.value, lcu.pickableSkinIds.value) != []
    ensures var c := Pick(SkinCandidates(lcu.skins.value, lcu.pickableSkinIds.value), k);
      && Submitted(SetSkin(lcu, k).calls) == Some(c.0)
      && (lcu.mySelection.Ok? ==> SetSkin(lcu, k).ending == Returned(c.1))
      && (lcu.mySelection.Err? ==> SetSkin(lcu, k).ending == Failed(SkinSubmitFailed))
  {
    var c := Pick(SkinCandidates(lcu.skins.value, lcu.pickableSkinIds.value), k);
    var requests := [GetHelp, GetSummonerIds, GetPickableSkinIds, GetCurrentChampion,
                     GetSkins(lcu.summoner.value.summonerId, lcu.currentChampion.value)];
    assert SetSkin(lcu, k) == Run(if lcu.mySelection.Err? then Failed(SkinSubmitFailed) else Returned(c.1),
                                  requests + [PatchMySelection(c.0)]);
    SubmittedAfterRequests(requests, PatchMySelection(c.0));
  }

  lemma {:induction false} SubmittedAfterRequests(requests: seq<Call>, last: Call)
    requires forall j :: 0 <= j < |requests| ==> !requests[j].PatchMySelection?
    requires last.PatchMySelection?
    ensures Submitted(requests + [last]) == Some(last.selectedSkinId)
  {
    if requests != [] {
      assert (requests + [last])[1..] == requests[1..] + [last];
      SubmittedAfterRequests(requests[1..], last);
    }
  }

  // ---------------------------------------------------------------------
  // set_chroma

  /** `(selected_skin_id, champion_id)` of the first roster entry whose
      summoner id matches, or `(0, 0)` when none does. */
  function RosterEntry(team: seq<TeamMember>, summonerId: int): (e: (int, int))
    ensures (forall i :: 0 <= i < |team| ==> team[i].summonerId != summonerId) ==> e == (0, 0)
    ensures forall i ::
      (0 <= i < |team| && team[i].summonerId == summonerId
       && forall j :: 0 <= j < i ==> team[j].summonerId != summonerId)
      ==> e == (team[i].selectedSkinId, team[i].championId)
  {
    if team == [] then (0, 0)
    else if team[0].summonerId == summonerId then (team[0].selectedSkinId, team[0].championId)
    else RosterEntry(team[1..], summonerId)
  }

  /** The two searches over the inventory: a skin whose chroma list holds
      the id, and a skin that has the id itself. */
  datatype SkinTest = ListsChroma(chromaId: int) | HasId(skinId: int)

  predicate Passes(t: SkinTest, s: Skin) {
    match t
    case ListsChroma(id) => exists i :: 0 <= i < |s.chromas| && s.chromas[i].id == id
    case HasId(id) => s.id == id
  }

  /** `iter().find`: the index of the first skin that passes. */
  function FindSkin(skins: seq<Skin>, t: SkinTest): (r: Option<nat>)
    ensures r.Some? ==> r.value < |skins| && Passes(t, skins[r.value])
    ensures r.Some? ==> forall j :: 0 <= j < r.value ==> !Passes(t, skins[j])
    ensures r.None? ==> forall j :: 0 <= j < |skins| ==> !Passes(t, skins[j])
  {
    if skins == [] then None
    else if Passes(t, skins[0]) then Some(0)
    else match FindSkin(skins[1..], t)
      case None => None
      case Some(i) => Some(i + 1)
  }

  /** `filter(|c| c.ownership.owned)`, order kept. */
  function OwnedChromas(cs: seq<Chroma>): (r: seq<Chroma>)
    ensures |r| <= |cs|
    ensures forall c :: c in r <==> c in cs && c.owned
  {
    if cs == [] then []
    else (if cs[0].owned then [cs[0]] else []) + OwnedChromas(cs[1..])
  }

  /** The filter keeps the list's order and its repetitions: it distributes
      over `+`. */
  lemma {:induction false} OwnedChromasAppend(a: seq<Chroma>, b: seq<Chroma>)
    ensures OwnedChromas(a + b) == OwnedChromas(a) + OwnedChromas(b)
  {
    if a != [] {
      assert (a + b)[1..] == a[1..] + b;
      OwnedChromasAppend(a[1..], b);
    } else {
      assert a + b == b;
    }
  }

  function OwnedChromasOf(skins: seq<Skin>, found: Option<nat>): (r: seq<Chroma>)
    requires found.Some? ==> found.value < |skins|
    ensures found.None? ==> r == []
    ensures found.Some? ==> forall c :: c in r <==> c in skins[found.value].chromas && c.owned
  {
    match found
    case None => []
    case Some(i) => OwnedChromas(skins[i].chromas)
  }

  /** `current_chromas`: the owned chromas of the first skin that lists the
      selected id as a chroma; if there are none, the owned chromas of the
      first skin whose own id is the selected id. */
  function ChromaCandidates(skins: seq<Skin>, selected: int): (r: seq<Chroma>)
    ensures forall c :: c in r ==> c.owned && exists s :: s in skins && c in s.chromas
  {
    var primary := OwnedChromasOf(skins, FindSkin(skins, ListsChroma(selected)));
    if primary != [] then primary
    else OwnedChromasOf(skins, FindSkin(skins, HasId(selected)))
  }

  /** The fallback is consulted only when the first search yields no owned
      chroma; then its skin's owned chromas are the candidates. */
  lemma ChromaCandidatesCases(skins: seq<Skin>, selected: int)
    ensures var first := FindSkin(skins, ListsChroma(selected));
      first.Some? && (exists c :: c in skins[first.value].chromas && c.owned) ==>
        ChromaCandidates(skins, selected) == OwnedChromas(skins[first.value].chromas)
    ensures var first := FindSkin(skins, ListsChroma(selected));
      var byId := FindSkin(skins, HasId(selected));
      (first.None? || forall c :: c in skins[first.value].chromas ==> !c.owned) ==>
        ChromaCandidates(skins, selected) == OwnedChromasOf(skins, byId)
  {
    var first := FindSkin(skins, ListsChroma(selected));
    var o := OwnedChromasOf(skins, first);
    assert o != [] ==> o[0] in o;
    if first.Some? && (exists c :: c in skins[first.value].chromas && c.owned) {
      var c :| c in skins[first.value].chromas && c.owned;
      assert c in o;
    }
  }

  /** `set_chroma`. */
  function SetChroma(lcu: Lcu, k: nat): (run: Run<(string, nat)>)
    ensures run.calls != [] && run.calls[0] == GetHelp
    ensures !lcu.online ==> run == Run(Failed(Offline), [GetHelp])
    ensures lcu.online && lcu.summoner.Err? ==>
      run == Run(Failed(NoSummonerId), [GetHelp, GetSummonerIds])
    ensures lcu.online && lcu.summoner.Ok? && lcu.session.Err? ==>
      run == Run(Failed(SkinNotPicked), [GetHelp, GetSummonerIds, GetSession])
    // No roster entry, or no champion in it: nothing more is requested.
    ensures (lcu.online && lcu.summoner.Ok? && lcu.session.Ok?
             && RosterEntry(lcu.session.value.myTeam, lcu.summoner.value.summonerId).1 == 0) ==>
        run == Run(Failed(SkinNotPicked), [GetHelp, GetSummonerIds, GetSession])
    // The inventory is fetched for the caller's champion, and its failure reported.
    ensures (lcu.online && lcu.summoner.Ok? && lcu.session.Ok?
             && RosterEntry(lcu.session.value.myTeam, lcu.summoner.value.summonerId).1 != 0) ==>
        var fetch := GetSkins(lcu.summoner.value.summonerId,
                              RosterEntry(lcu.session.value.myTeam, lcu.summoner.value.summonerId).1);
        && |run.calls| >= 4
        && run.calls[..4] == [GetHelp, GetSummonerIds, GetSession, fetch]
        && (lcu.skins.Err? ==> run == Run(Failed(NotInChampSelect), run.calls[..4]))
        && (lcu.skins.Ok? && ChromaCandidates(lcu.skins.value,
              RosterEntry(lcu.session.value.myTeam, lcu.summoner.value.summonerId).0) == [] ==>
            run == Run(Failed(NoChroma), run.calls[..4]))
    // A submission is the last request, and of an owned chroma of the
    // caller's inventory that is among the candidates; once the PATCH went
    // through, that chroma's first colour decides how the run ends.
    ensures Submitted(run.calls).Some? ==>
      && |run.calls| == 5 && run.calls[4] == PatchMySelection(Submitted(run.calls).value)
      && lcu.summoner.Ok? && lcu.session.Ok? && lcu.skins.Ok?
      && exists c ::
           (c in ChromaCandidates(lcu.skins.value,
                                  RosterEntry(lcu.session.value.myTeam, lcu.summoner.value.summonerId).0)
            && c.id == Submitted(run.calls).value && c.owned
            && (lcu.mySelection.Ok? ==> run.ending == ColorEnding(c)))
    // The colour is read only after the submit went through; an unreadable
    // colour is reported although the chroma has been submitted.
    ensures run.ending.Returned? || run.ending == Failed(InvalidColor) || run.ending.Panicked? ==>
      Submitted(run.calls).Some? && lcu.mySelection.Ok?
    ensures run.ending == Failed(ChromaSubmitFailed) <==>
      Submitted(run.calls).Some? && lcu.mySelection.Err?
    ensures run.ending.Returned? ==>
      run.ending.value.0 == ChromaRandomized && run.ending.value.1 <= HexColor.U32Max
  {
    if !lcu.online then Run(Failed(Offline), [GetHelp])
    else if lcu.summoner.Err? then Run(Failed(NoSummonerId), [GetHelp, GetSummonerIds])
    else if lcu.session.Err? then Run(Failed(SkinNotPicked), [GetHelp, GetSummonerIds, GetSession])
    else
      var summonerId := lcu.summoner.value.summonerId;
      var (selectedSkinId, championId) := RosterEntry(lcu.session.value.myTeam, summonerId);
      if championId == 0 then Run(Failed(SkinNotPicked), [GetHelp, GetSummonerIds, GetSession])
      else
        var requests := [GetHelp, GetSummonerIds, GetSession, GetSkins(summonerId, championId)];
        assert requests[..4] == requests;
        if lcu.skins.Err? then Run(Failed(NotInChampSelect), requests)
        else
          var candidates := ChromaCandidates(lcu.skins.value, selectedSkinId);
          if candidates == [] then Run(Failed(NoChroma), requests)
          else
            var chroma := Pick(candidates, k);
            var calls := requests + [PatchMySelection(chroma.id)];
            assert calls[..4] == requests;
            SubmittedAfterRequests(requests, PatchMySelection(chroma.id));
            if lcu.mySelection.Err? then Run(Failed(ChromaSubmitFailed), calls)
            else Run(ColorEnding(chroma), calls)
  }

  /** The end of `set_chroma` after a successful submit: `colors[0]`
      panics on an empty list; otherwise its parse is the result. */
  function ColorEnding(chroma: Chroma): (e: Ending<(string, nat)>)
    ensures e.Returned? || e == Failed(InvalidColor) || e.Panicked?
    ensures e.Returned? ==> e.value.0 == ChromaRandomized && e.value.1 <= HexColor.U32Max
    ensures e.Panicked? <==> chroma.colors == []
  {
    if chroma.colors == [] then Panicked
    else
      match HexColor.ParseColor(chroma.colors[0])
      case None => Failed(InvalidColor)
      case Some(color) => Returned((ChromaRandomized, color))
  }

  /** Whatever the random index, the chroma it picks is submitted (so every
      candidate can be the one chosen), and its first colour decides the
      ending: a failed PATCH is reported, an empty colour list
      panics, an unreadable colour is reported, and a readable one is
      returned. */
  lemma EveryChromaCanBeChosen(lcu: Lcu, i: nat)
    requires lcu.online && lcu.summoner.Ok? && lcu.session.Ok? && lcu.skins.Ok?
    requires RosterEntry(lcu.session.value.myTeam, lcu.summoner.value.summonerId).1 != 0
    requires ChromaCandidates(lcu.skins.value, RosterEntry(lcu.session.value.myTeam, lcu.summoner.value.summonerId).0) != []
    ensures var c := Pick(ChromaCandidates(lcu.skins.value,
                            RosterEntry(lcu.session.value.myTeam, lcu.summoner.value.summonerId).0), i);
      && Submitted(SetChroma(lcu, i).calls) == Some(c.id)
      && (lcu.mySelection.Err? ==> SetChroma(lcu, i).ending == Failed(ChromaSubmitFailed))
      && (lcu.mySelection.Ok? && c.colors == [] ==> SetChroma(lcu, i).ending == Panicked)
      && (lcu.mySelection.Ok? && c.colors != [] && HexColor.ParseColor(c.colors[0]).None? ==>
            SetChroma(lcu, i).ending == Failed(InvalidColor))
      && (lcu.mySelection.Ok? && c.colors != [] && HexColor.ParseColor(c.colors[0]).Some? ==>
            SetChroma(lcu, i).ending == Returned((ChromaRandomized, HexColor.ParseColor(c.colors[0]).value)))
  {
    var me := lcu.summoner.value.summonerId;
    var e := RosterEntry(lcu.session.value.myTeam, me);
    var c := Pick(ChromaCandidates(lcu.skins.value, e.0), i);
    var requests := [GetHelp, GetSummonerIds, GetSession, GetSkins(me, e.1)];
    assert SetChroma(lcu, i) == Run(if lcu.mySelection.Err? then Failed(ChromaSubmitFailed) else ColorEnding(c),
                                    requests + [PatchMySelection(c.id)]);
    SubmittedAfterRequests(requests, PatchMySelection(c.id));
  }

  // ---------------------------------------------------------------------
  // Scenarios

  /** Pickable ids {10, 11} against an inventory 10 "A", 11 "B", 12 "C":
      the candidates are exactly (10, "A") and (11, "B"), and 12 is never
      submitted. */
  lemma SkinScenario(lcu: Lcu, k: nat)
    requires lcu.online && lcu.summoner.Ok? && lcu.currentChampion.Ok?
    requires lcu.pickableSkinIds == Ok([10, 11])
    requires lcu.skins == Ok([Skin(10, "A", []), Skin(11, "B", []), Skin(12, "C", [])])
    ensures SkinCandidates(lcu.skins.value, lcu.pickableSkinIds.value) == [(10, "A"), (11, "B")]
    ensures Submitted(SetSkin(lcu, k).calls) == Some(10) || Submitted(SetSkin(lcu, k).calls) == Some(11)
  {
    var skins := lcu.skins.value;
    assert skins[1..] == [Skin(11, "B", []), Skin(12, "C", [])];
    assert skins[1..][1..] == [Skin(12, "C", [])];
    assert skins[1..][1..][1..] == [];
    assert SkinCandidates(skins[1..][1..], [10, 11]) == [];
  }

  /** Pickable ids {99} against inventory ids 10 and 11: "No skins
      available!" and no submission. */
  lemma NoSkinScenario(lcu: Lcu, k: nat)
    requires lcu.online && lcu.summoner.Ok? && lcu.currentChampion.Ok?
    requires lcu.pickableSkinIds == Ok([99])
    requires lcu.skins == Ok([Skin(10, "A", []), Skin(11, "B", [])])
    ensures SetSkin(lcu, k).ending == Failed(NoSkins)
    ensures Submitted(SetSkin(lcu, k).calls).None?
  {
    var skins := lcu.skins.value;
    assert skins[1..] == [Skin(11, "B", [])];
    assert skins[1..][1..] == [];
  }

  /** The caller's roster entry has selected 20, and skin 10 lists an owned
      chroma 20 coloured `#AABBCC`: chroma 20 is submitted and the colour
      returned is 0xAABBCC. */
  lemma ChromaScenario(lcu: Lcu, k: nat, me: int, champion: int)
    requires lcu.online && lcu.summoner.Ok? && lcu.summoner.value.summonerId == me
    requires champion != 0
    requires lcu.session == Ok(ChampSelectSession([TeamMember(me, champion, 20)]))
    requires lcu.skins == Ok([Skin(10, "S", [Chroma(20, ["#AABBCC"], true)])])
    requires lcu.mySelection.Ok?
    ensures SetChroma(lcu, k) == Run(Returned((ChromaRandomized, 0xAABBCC)),
      [GetHelp, GetSummonerIds, GetSession, GetSkins(me, champion), PatchMySelection(20)])
  {
    var c := Chroma(20, ["#AABBCC"], true);
    OnlyChromaIsCandidate(Skin(10, "S", [c]), c);
    HexColor.ExampleColor();
  }

  /** No skin lists chroma 20, but skin 20 itself has owned chromas 21 and
      22: those two are the candidates. */
  lemma ChromaFallbackScenario(c21: Chroma, c22: Chroma)
    requires c21.id == 21 && c22.id == 22 && c21.owned && c22.owned
    ensures var skins := [Skin(10, "S", [c21]), Skin(20, "T", [c21, c22])];
      ChromaCandidates(skins, 20) == [c21, c22]
  {
    var skins := [Skin(10, "S", [c21]), Skin(20, "T", [c21, c22])];
    assert !Passes(ListsChroma(20), skins[0]) && !Passes(ListsChroma(20), skins[1]);
    assert skins[1..] == [skins[1]] && skins[1..][1..] == [];
    assert FindSkin(skins, ListsChroma(20)) == None;
    assert FindSkin(skins, HasId(20)) == Some(1);
    var cs := skins[1].chromas;
    assert cs[1..] == [c22] && cs[1..][1..] == [];
  }

  /** A chroma coloured `zzzzzz` is still submitted, and then the colour
      is reported unreadable. */
  lemma MalformedColorScenario(lcu: Lcu, k: nat, me: int, champion: int)
    requires lcu.online && lcu.summoner.Ok? && lcu.summoner.value.summonerId == me
    requires champion != 0
    requires lcu.session == Ok(ChampSelectSession([TeamMember(me, champion, 20)]))
    requires lcu.skins == Ok([Skin(10, "S", [Chroma(20, ["zzzzzz"], true)])])
    requires lcu.mySelection.Ok?
    ensures SetChroma(lcu, k) == Run(Failed(InvalidColor),
      [GetHelp, GetSummonerIds, GetSession, GetSkins(me, champion), PatchMySelection(20)])
  {
    var c := Chroma(20, ["zzzzzz"], true);
    OnlyChromaIsCandidate(Skin(10, "S", [c]), c);
    HexColor.MalformedColor();
  }

  /** A skin with one owned chroma, selected by its id: that chroma is the
      only candidate. */
  lemma OnlyChromaIsCandidate(skin: Skin, c: Chroma)
    requires skin.chromas == [c] && c.owned
    ensures ChromaCandidates([skin], c.id) == [c]
  {
    assert Passes(ListsChroma(c.id), skin) by {
      assert skin.chromas[0] == c;
    }
    assert [skin][0] == skin;
    assert OwnedChromas(skin.chromas) == [c] by {
      assert skin.chromas[1..] == [];
    }
  }
}
