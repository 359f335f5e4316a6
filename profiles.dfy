/**
 * The profile record the editor holds, its info and theme edits, and the
 * wire form `handleSave` sends to the profile store.
 */
module Profiles {
  import opened Wrappers
  import opened Strings
  import opened Blocks

  /** A top-level scalar of the profile record: a string, or a number such as `__v` */
  datatype Field = Text(s: string) | Number(n: int)

  /** The `theme` object: `layout`, `primaryColor` and whatever else the store keeps there */
  type Theme = map<string, string>

  /**
   * A profile as the store returns it: every top-level key other than `theme`
   * and `components` is in `fields`.
   */
  datatype Profile = Profile(fields: map<string, Field>, theme: Option<Theme>, components: Option<seq<Block>>)

  /** The keys the store manages, stripped before a save */
  const StoreManaged: set<string> := {"_id", "userId", "createdAt", "updatedAt", "__v"}

  const Layouts: seq<string> := ["classic", "modern", "minimal"]
  const Palette: seq<string> := ["#c6ff00", "#3b82f6", "#ec4899", "#8b5cf6", "#ef4444"]

  /** The text inputs and image pickers of the Basic Information panel */
  datatype InfoField = DisplayName | JobTitle | Company | Bio | AvatarUrl | CoverUrl {
    function Key(): string {
      match this
      case DisplayName => "displayName"
      case JobTitle => "title"
      case Company => "company"
      case Bio => "bio"
      case AvatarUrl => "avatarUrl"
      case CoverUrl => "coverUrl"
    }
  }

  /** The two controls of the Appearance panel */
  datatype ThemeField = Layout | PrimaryColor {
    function Key(): string {
      match this
      case Layout => "layout"
      case PrimaryColor => "primaryColor"
    }
  }

  const EmptyProfile := Profile(map[], None, None)

  /** `setProfile({ ...profile, [field]: value })`: spreading a null profile gives `{}` */
  function SetInfo(p: Option<Profile>, f: InfoField, v: string): (r: Profile)
    ensures f.Key() in r.fields && r.fields[f.Key()] == Text(v)
    ensures r.theme == p.GetOr(EmptyProfile).theme && r.components == p.GetOr(EmptyProfile).components
  {
    var base := p.GetOr(EmptyProfile);
    base.(fields := base.fields[f.Key() := Text(v)])
  }

  /**
   * `setProfile({ ...profile, theme: { ...profile.theme, [key]: value } })`;
   * `None` when the profile is null, where reading `profile.theme` throws.
   */
  function SetTheme(p: Option<Profile>, f: ThemeField, v: string): (r: Option<Profile>)
    ensures r.None? <==> p.None?
    ensures r.Some? ==> r.value.fields == p.value.fields && r.value.components == p.value.components
    ensures r.Some? ==> r.value.theme.Some? && f.Key() in r.value.theme.value && r.value.theme.value[f.Key()] == v
    ensures r.Some? ==> r.value.theme.value.Keys == p.value.theme.GetOr(map[]).Keys + {f.Key()}
  {
    match p
    case None => None
    case Some(q) => Some(q.(theme := Some(q.theme.GetOr(map[])[f.Key() := v])))
  }

  /** An info edit sets one field and keeps every other field, the theme and the blocks. */
  lemma SetInfoChangesOneField(p: Option<Profile>, f: InfoField, v: string)
    ensures var r := SetInfo(p, f, v);
      && f.Key() in r.fields && r.fields[f.Key()] == Text(v)
      && r.theme == p.GetOr(EmptyProfile).theme
      && r.components == p.GetOr(EmptyProfile).components
      && r.fields.Keys == p.GetOr(EmptyProfile).fields.Keys + {f.Key()}
      && forall k :: k in p.GetOr(EmptyProfile).fields && k != f.Key() ==> r.fields[k] == p.GetOr(EmptyProfile).fields[k]
  {
  }

  /**
   * A theme edit on a loaded profile sets one theme key and keeps the other
   * theme keys and every profile field; on a null profile it does nothing.
   */
  lemma SetThemeChangesOneKey(p: Option<Profile>, f: ThemeField, v: string)
    ensures p.None? <==> SetTheme(p, f, v).None?
    ensures p.Some? ==> var q, r := p.value, SetTheme(p, f, v).value;
      && r.fields == q.fields && r.components == q.components
      && r.theme.Some? && f.Key() in r.theme.value && r.theme.value[f.Key()] == v
      && r.theme.value.Keys == q.theme.GetOr(map[]).Keys + {f.Key()}
      && forall k :: k in q.theme.GetOr(map[]) && k != f.Key() ==>
           k in r.theme.value && r.theme.value[k] == q.theme.GetOr(map[])[k]
  {
  }

  // ---------------------------------------------------------------- wire form

  /** A block as sent to the store: `({ _id, ...rest }) => rest` */
  datatype WireBlock = WireBlock(kind: string, data: Option<Payload>, isEnabled: bool)

  /** `{ ...updateData, components: sanitizedComponents }` */
  datatype WireProfile = WireProfile(fields: map<string, Field>, theme: Option<Theme>, components: seq<WireBlock>)

  /** `api.put(path, body)` */
  datatype SaveRequest = SaveRequest(path: string, body: WireProfile)

  /** `({ _id, ...rest }) => rest`: everything but the id */
  function Sanitize(b: Block): (w: WireBlock)
    ensures w.kind == b.kind && w.data == b.data && w.isEnabled == b.isEnabled
  {
    WireBlock(b.kind, b.data, b.isEnabled)
  }

  /** The body of the save request: no store-managed field, one wire block per block */
  function ToWire(p: Profile, bs: seq<Block>): (w: WireProfile)
    ensures forall k :: k in StoreManaged ==> k !in w.fields
    ensures |w.components| == |bs|
  {
    WireProfile(p.fields - StoreManaged, p.theme, seq(|bs|, i requires 0 <= i < |bs| => Sanitize(bs[i])))
  }

  /** `${profile._id}` in a template literal */
  function IdSegment(p: Profile): (r: string)
    ensures "_id" !in p.fields ==> r == "undefined"
    ensures "_id" in p.fields && p.fields["_id"].Text? ==> r == p.fields["_id"].s
    ensures "_id" in p.fields && p.fields["_id"].Number? ==> r == IntToString(p.fields["_id"].n)
  {
    if "_id" !in p.fields then "undefined"
    else match p.fields["_id"]
      case Text(s) => s
      case Number(n) => IntToString(n)
  }

  /**
   * `handleSave`: nothing is sent while the profile is null; otherwise a PUT to
   * the profile's id path whose body is the profile with the current blocks.
   */
  function SaveRequestFor(p: Option<Profile>, bs: seq<Block>): (r: Option<SaveRequest>)
    ensures r.None? <==> p.None?
    ensures p.Some? ==> r == Some(SaveRequest("/profiles/" + IdSegment(p.value), ToWire(p.value, bs)))
  {
    match p
    case None => None
    case Some(q) => Some(SaveRequest("/profiles/" + IdSegment(q), ToWire(q, bs)))
  }

  /**
   * The saved body keeps every profile field except the store-managed ones,
   * keeps the theme, and lists the blocks in the same order, each without its id.
   */
  lemma ToWireShape(p: Profile, bs: seq<Block>)
    ensures var w := ToWire(p, bs);
      && w.fields.Keys == p.fields.Keys - StoreManaged
      && (forall k :: k in w.fields ==> w.fields[k] == p.fields[k])
      && w.theme == p.theme
      && |w.components| == |bs|
      && forall i :: 0 <= i < |bs| ==>
           w.components[i].kind == bs[i].kind && w.components[i].data == bs[i].data
           && w.components[i].isEnabled == bs[i].isEnabled
  {
  }

  /**
   * No id reaches the store: two block lists that differ only in their ids
   * (temporary or store-assigned) produce the same body.
   */
  lemma ToWireIgnoresIds(p: Profile, bs: seq<Block>, cs: seq<Block>)
    requires |bs| == |cs|
    requires forall i :: 0 <= i < |bs| ==> bs[i].(id := cs[i].id) == cs[i]
    ensures ToWire(p, bs) == ToWire(p, cs)
  {
    var w, v := ToWire(p, bs).components, ToWire(p, cs).components;
    forall i | 0 <= i < |bs| ensures w[i] == v[i] {
      assert bs[i].(id := cs[i].id) == cs[i];
    }
  }

  /**
   * Saving again right after loading the store's answer to a save sends the
   * same body: whatever the store adds (its managed fields and the block ids)
   * is stripped again.
   */
  lemma ResaveIsStable(w: WireProfile, stored: Profile, cs: seq<Block>)
    requires stored.fields - StoreManaged == w.fields
    requires stored.theme == w.theme
    requires |cs| == |w.components| && forall i :: 0 <= i < |cs| ==> Sanitize(cs[i]) == w.components[i]
    ensures ToWire(stored, cs) == w
  {
    assert ToWire(stored, cs).components == w.components;
  }
}
