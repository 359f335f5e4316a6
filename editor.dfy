/**
 * The profile editor page: the two state cells it keeps (the profile record
 * and the ordered block list) and the handlers that overwrite them. Each
 * handler's new value is the pure function of the same name in `Blocks` or
 * `Profiles`; the properties of those functions are proved there.
 */
module Editor {
  import opened Wrappers
  import opened Blocks
  import opened Profiles

  class Editor {
    /** `profile`: `null` until the first fetch succeeds */
    var profile: Option<Profile>
    /** `components`: the block list being edited */
    var components: seq<Block>
    /** `loading`: set until the first fetch settles */
    var loading: bool

    constructor ()
      ensures profile == None && components == [] && loading
    {
      profile := None;
      components := [];
      loading := true;
    }

    /**
     * `fetchProfile` after the request returned `profiles`: the first profile
     * and its blocks (`components || []`) are taken; an empty answer changes
     * neither cell.
     */
    method Loaded(profiles: seq<Profile>)
      modifies this
      ensures |profiles| > 0 ==> profile == Some(profiles[0]) && components == profiles[0].components.GetOr([])
      ensures |profiles| == 0 ==> profile == old(profile) && components == old(components)
      ensures !loading
    {
      if |profiles| > 0 {
        profile := Some(profiles[0]);
        components := profiles[0].components.GetOr([]);
      }
      loading := false;
    }

    /** `fetchProfile` after the request failed: only the loading flag drops. */
    method LoadFailed()
      modifies this
      ensures profile == old(profile) && components == old(components) && !loading
    {
      loading := false;
    }

    /** `addComponent(type)` at clock reading `now` */
    method AddComponent(kind: string, now: nat)
      modifies this
      ensures components == Add(old(components), kind, now)
      ensures |components| == |old(components)| + 1 && components[..|old(components)|] == old(components)
      ensures DistinctIds(old(components)) && !HasId(old(components), TempId(now)) ==> DistinctIds(components)
      ensures profile == old(profile) && loading == old(loading)
    {
      AddAppends(components, kind, now);
      if DistinctIds(components) && !HasId(components, TempId(now)) {
        AddKeepsIdsDistinct(components, kind, now);
      }
      components := Add(components, kind, now);
    }

    /** `removeComponent(id)` */
    method RemoveComponent(id: string)
      modifies this
      ensures components == Remove(old(components), id)
      ensures forall b :: b in components <==> b in old(components) && b.id != id
      ensures DistinctIds(old(components)) ==> DistinctIds(components)
      ensures profile == old(profile) && loading == old(loading)
    {
      RemoveKeeps(components, id);
      if DistinctIds(components) {
        RemoveKeepsIdsDistinct(components, id);
      }
      components := Remove(components, id);
    }

    /** `handleUpdateComponent(id, newData)` */
    method UpdateComponent(id: string, newData: Payload)
      modifies this
      ensures components == UpdateData(old(components), id, newData)
      ensures Ids(components) == Ids(old(components))
      ensures profile == old(profile) && loading == old(loading)
    {
      UpdateDataOnlyTouchesData(components, id, newData);
      components := UpdateData(components, id, newData);
    }

    /** `handleChange` in the form of the block at position `k` */
    method ChangeField(k: nat, e: FormEdit)
      requires k < |components|
      modifies this
      ensures components == EditAt(old(components), k, e)
      ensures Ids(components) == Ids(old(components))
      ensures profile == old(profile) && loading == old(loading)
    {
      UpdateDataOnlyTouchesData(components, components[k].id, Edited(components[k].data, e));
      components := EditAt(components, k, e);
    }

    /**
     * `handleDragEnd`: `over` is `None` when the block was dropped outside the
     * list, where reading `over.id` throws before any state change.
     */
    method DragEnd(active: string, over: Option<string>)
      requires HasId(components, active) && (over.Some? ==> HasId(components, over.value))
      modifies this
      ensures over.None? ==> components == old(components)
      ensures over.Some? ==> components == Reorder(old(components), active, over.value)
      ensures multiset(components) == multiset(old(components))
      ensures DistinctIds(old(components)) ==> DistinctIds(components)
      ensures profile == old(profile) && loading == old(loading)
    {
      if over.Some? {
        ReorderMoves(components, active, over.value);
        components := Reorder(components, active, over.value);
      }
    }

    /** The basic-information inputs: `setProfile({ ...profile, [field]: value })` */
    method EditInfo(f: InfoField, v: string)
      modifies this
      ensures profile == Some(SetInfo(old(profile), f, v))
      ensures components == old(components) && loading == old(loading)
    {
      profile := Some(SetInfo(profile, f, v));
    }

    /** The layout select and the accent swatches; nothing changes while the profile is null. */
    method EditTheme(f: ThemeField, v: string)
      modifies this
      ensures old(profile).None? ==> profile == None
      ensures old(profile).Some? ==> profile == SetTheme(old(profile), f, v)
      ensures components == old(components) && loading == old(loading)
    {
      var p := SetTheme(profile, f, v);
      if p.Some? {
        profile := p;
      }
    }

    /** `handleSave`: the request it sends, if any; the editor's state is left as it is */
    method Save() returns (req: Option<SaveRequest>)
      ensures req == SaveRequestFor(profile, components)
      ensures req.None? <==> profile.None?
      ensures profile.Some? ==>
        req == Some(SaveRequest("/profiles/" + IdSegment(profile.value), ToWire(profile.value, components)))
    {
      req := SaveRequestFor(profile, components);
    }
  }
}
