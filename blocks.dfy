/**
 * The block list of the profile editor: typed content blocks and the pure
 * list rules its handlers apply (add, remove, replace data, per-key edit,
 * gallery edits, drag reorder).
 */
module Blocks {
  import opened Wrappers
  import opened Strings

  /** A value of a block's `data` object: a string, or an array of strings (gallery images) */
  datatype Value = Str(s: string) | List(items: seq<string>)

  /** A block's `data` object */
  type Payload = map<string, Value>

  /**
   * One content block. `kind` is the raw `type` string: the public page and
   * `addComponent` both meet strings outside the five known kinds.
   */
  datatype Block = Block(id: string, kind: string, data: Option<Payload>, isEnabled: bool)

  /**
   * The `id` of a block loaded without `_id`: the store schema does not give
   * blocks one, and every such block compares equal under `===`.
   */
  const MissingId := ""

  predicate IsKnownKind(kind: string) {
    kind == "link" || kind == "social" || kind == "text" || kind == "video" || kind == "gallery"
  }

  const TempPrefix := "temp-"

  /** The id `temp-${Date.now()}` given to a block created at clock reading `now` (milliseconds) */
  function TempId(now: nat): (r: string)
    ensures |r| > |TempPrefix| && r[..|TempPrefix|] == TempPrefix
    ensures forall i :: |TempPrefix| <= i < |r| ==> '0' <= r[i] <= '9'
  {
    TempPrefix + NatToString(now)
  }

  /**
   * The payload `addComponent` gives a new block of `kind`: it holds every
   * key the kind's form edits, and an unknown kind gets `{label: 'Item'}`.
   */
  function DefaultData(kind: string): (d: Payload)
    ensures forall e :: Offers(kind, e) ==> EditKey(e) in d
    ensures !IsKnownKind(kind) ==> d == map["label" := Str("Item")]
  {
    if kind == "link" || kind == "social" then map["label" := Str("New Link"), "url" := Str("https://")]
    else if kind == "text" then map["text" := Str("Enter text here")]
    else if kind == "video" then map["url" := Str("https://youtube.com/...")]
    else if kind == "gallery" then map["images" := List(["https://via.placeholder.com/150", "https://via.placeholder.com/150"])]
    else map["label" := Str("Item")]
  }

  function Ids(bs: seq<Block>): (ids: seq<string>)
    ensures |ids| == |bs| && forall i :: 0 <= i < |bs| ==> ids[i] == bs[i].id
  {
    seq(|bs|, i requires 0 <= i < |bs| => bs[i].id)
  }

  predicate HasId(bs: seq<Block>, id: string) {
    exists i :: 0 <= i < |bs| && bs[i].id == id
  }

  ghost predicate DistinctIds(bs: seq<Block>) {
    forall i, j :: 0 <= i < j < |bs| ==> bs[i].id != bs[j].id
  }

  // ---------------------------------------------------------------- add

  /** `addComponent(type)`: `[...components, newComponent]` */
  function Add(bs: seq<Block>, kind: string, now: nat): (r: seq<Block>)
    ensures |r| == |bs| + 1 && r[..|bs|] == bs
    ensures r[|bs|].id == TempId(now) && r[|bs|].kind == kind && r[|bs|].isEnabled
  {
    bs + [Block(TempId(now), kind, Some(DefaultData(kind)), true)]
  }

  /**
   * Adding appends exactly one enabled block, with a `temp-` id and the
   * kind's default payload, after the unchanged earlier blocks.
   */
  lemma AddAppends(bs: seq<Block>, kind: string, now: nat)
    ensures var r := Add(bs, kind, now);
      && |r| == |bs| + 1
      && r[..|bs|] == bs
      && r[|bs|].isEnabled
      && r[|bs|].kind == kind
      && r[|bs|].data == Some(DefaultData(kind))
      && |r[|bs|].id| > |TempPrefix| && r[|bs|].id[..|TempPrefix|] == TempPrefix
  {
    var r := Add(bs, kind, now);
    assert r[|bs|].id[..|TempPrefix|] == TempPrefix;
  }

  /** A kind outside the closed set is not an error: it gets `{label: 'Item'}`. */
  lemma AddUnknownKind(bs: seq<Block>, kind: string, now: nat)
    requires !IsKnownKind(kind)
    ensures Add(bs, kind, now)[|bs|].data == Some(map["label" := Str("Item")])
  {
  }

  /** Blocks added at different clock readings get different ids. */
  lemma TempIdsDiffer(t1: nat, t2: nat)
    requires t1 != t2
    ensures TempId(t1) != TempId(t2)
  {
    if TempId(t1) == TempId(t2) {
      assert NatToString(t1) == TempId(t1)[|TempPrefix|..] == TempId(t2)[|TempPrefix|..] == NatToString(t2);
      NatToStringInjective(t1, t2);
    }
  }

  /** Two adds within the same millisecond give two blocks the same id. */
  lemma SameMillisecondAddsCollide(bs: seq<Block>, k1: string, k2: string, now: nat)
    ensures var r := Add(Add(bs, k1, now), k2, now);
      |r| == |bs| + 2 && r[|bs|].id == r[|bs| + 1].id && !DistinctIds(r)
  {
  }

  /** Adding keeps the ids distinct only if no earlier block carries the new id. */
  lemma AddDistinctNeedsFreshId(bs: seq<Block>, kind: string, now: nat)
    ensures DistinctIds(Add(bs, kind, now)) ==> !HasId(bs, TempId(now))
  {
    var r := Add(bs, kind, now);
    if HasId(bs, TempId(now)) {
      var i :| 0 <= i < |bs| && bs[i].id == TempId(now);
      assert r[i].id == r[|bs|].id;
    }
  }

  /** Under a fresh clock reading, adding keeps the ids distinct. */
  lemma AddKeepsIdsDistinct(bs: seq<Block>, kind: string, now: nat)
    requires DistinctIds(bs) && !HasId(bs, TempId(now))
    ensures DistinctIds(Add(bs, kind, now))
  {
  }

  // ---------------------------------------------------------------- remove

  /** `removeComponent(id)`: `components.filter(c => c._id !== id)` */
  function Remove(bs: seq<Block>, id: string): (r: seq<Block>)
    ensures |r| <= |bs|
    ensures forall i :: 0 <= i < |r| ==> r[i].id != id
  {
    if |bs| == 0 then []
    else (if bs[0].id == id then [] else [bs[0]]) + Remove(bs[1..], id)
  }

  /** The blocks kept are exactly the blocks with another id. */
  lemma {:induction false} RemoveKeeps(bs: seq<Block>, id: string)
    ensures forall b :: b in Remove(bs, id) <==> b in bs && b.id != id
  {
    if |bs| > 0 {
      RemoveKeeps(bs[1..], id);
      assert bs == [bs[0]] + bs[1..];
    }
  }

  lemma {:induction false} RemoveAppend(a: seq<Block>, b: seq<Block>, id: string)
    ensures Remove(a + b, id) == Remove(a, id) + Remove(b, id)
  {
    if |a| == 0 {
      assert a + b == b;
    } else {
      assert (a + b)[1..] == a[1..] + b;
      RemoveAppend(a[1..], b, id);
    }
  }

  /** Removing an id no block has leaves the list unchanged. */
  lemma {:induction false} RemoveAbsent(bs: seq<Block>, id: string)
    requires !HasId(bs, id)
    ensures Remove(bs, id) == bs
  {
    if |bs| > 0 {
      assert !HasId(bs[1..], id) by {
        forall i | 0 <= i < |bs[1..]| ensures bs[1..][i].id != id {
          assert bs[1..][i] == bs[i + 1];
        }
      }
      RemoveAbsent(bs[1..], id);
      assert [bs[0]] + bs[1..] == bs;
    }
  }

  /**
   * With distinct ids, removing the id of block `k` deletes exactly that
   * block and keeps the others in their order.
   */
  lemma RemoveUnique(bs: seq<Block>, k: nat)
    requires k < |bs| && DistinctIds(bs)
    ensures Remove(bs, bs[k].id) == bs[..k] + bs[k + 1..]
  {
    var id := bs[k].id;
    var pre, post := bs[..k], bs[k + 1..];
    forall i | 0 <= i < |pre| ensures pre[i].id != id {
      assert pre[i] == bs[i];
    }
    forall i | 0 <= i < |post| ensures post[i].id != id {
      assert post[i] == bs[k + 1 + i];
    }
    assert pre + [bs[k]] == bs[..k + 1];
    assert bs[..k + 1] + post == bs;
    RemoveBetween(pre, bs[k], post);
  }

  lemma RemoveBetween(pre: seq<Block>, b: Block, post: seq<Block>)
    requires !HasId(pre, b.id) && !HasId(post, b.id)
    ensures Remove(pre + [b] + post, b.id) == pre + post
  {
    var front := pre + [b];
    RemoveAbsent(pre, b.id);
    RemoveAbsent(post, b.id);
    assert [b][1..] == [];
    assert Remove([b], b.id) == [];
    RemoveAppend(pre, [b], b.id);
    assert Remove(front, b.id) == pre + [];
    RemoveAppend(front, post, b.id);
    assert Remove(front + post, b.id) == pre + post;
  }

  /** Removing the block just added under a fresh clock reading restores the list. */
  lemma RemoveUndoesAdd(bs: seq<Block>, kind: string, now: nat)
    requires !HasId(bs, TempId(now))
    ensures Remove(Add(bs, kind, now), TempId(now)) == bs
  {
    var b := Block(TempId(now), kind, Some(DefaultData(kind)), true);
    RemoveAppend(bs, [b], TempId(now));
    RemoveAbsent(bs, TempId(now));
    assert Remove([b], TempId(now)) == [];
  }

  /** Removing never invents a block, so distinct ids stay distinct. */
  lemma {:induction false} RemoveKeepsIdsDistinct(bs: seq<Block>, id: string)
    requires DistinctIds(bs)
    ensures DistinctIds(Remove(bs, id))
  {
    if |bs| > 0 {
      RemoveKeepsIdsDistinct(bs[1..], id);
      RemoveKeeps(bs[1..], id);
      var rest := Remove(bs[1..], id);
      forall b | b in rest ensures b.id != bs[0].id {
        var i :| 0 <= i < |bs[1..]| && bs[1..][i] == b;
        assert bs[1 + i] == b;
      }
    }
  }

  // ---------------------------------------------------------------- update

  /** `handleUpdateComponent(id, newData)`: every block with the id gets `data: newData` */
  function UpdateData(bs: seq<Block>, id: string, newData: Payload): (r: seq<Block>)
    ensures |r| == |bs|
  {
    seq(|bs|, i requires 0 <= i < |bs| => if bs[i].id == id then bs[i].(data := Some(newData)) else bs[i])
  }

  /**
   * Replacing data changes nothing but the `data` of the blocks carrying the
   * id, and replaces it wholesale there.
   */
  lemma UpdateDataOnlyTouchesData(bs: seq<Block>, id: string, newData: Payload)
    ensures var r := UpdateData(bs, id, newData);
      && |r| == |bs| && Ids(r) == Ids(bs)
      && (forall i :: 0 <= i < |bs| ==> r[i].kind == bs[i].kind && r[i].isEnabled == bs[i].isEnabled)
      && (forall i :: 0 <= i < |bs| ==> r[i].data == if bs[i].id == id then Some(newData) else bs[i].data)
  {
  }

  /** Replacing the data under an absent id changes nothing. */
  lemma UpdateDataAbsent(bs: seq<Block>, id: string, newData: Payload)
    requires !HasId(bs, id)
    ensures UpdateData(bs, id, newData) == bs
  {
  }

  // ---------------------------------------------------------------- per-key edits

  /** `{ ...(component.data || {}), [key]: value }` */
  function Patch(data: Option<Payload>, key: string, value: Value): (r: Payload)
    ensures key in r && r[key] == value
    ensures r.Keys == data.GetOr(map[]).Keys + {key}
    ensures forall k :: k in data.GetOr(map[]) && k != key ==> r[k] == data.GetOr(map[])[k]
  {
    data.GetOr(map[])[key := value]
  }

  /** The edits the block form offers (`handleChange` calls at lines 47, 54, 63, 73, 94, 104) */
  datatype FormEdit =
    | SetLabel(newLabel: string)
    | SetUrl(newUrl: string)
    | SetText(newText: string)
    | UploadImages(files: seq<string>)   // data URLs read from the picked files
    | SetImageList(lines: string)        // the gallery textarea's new value

  /** The key an edit writes */
  function EditKey(e: FormEdit): string {
    match e
    case SetLabel(_) => "label"
    case SetUrl(_) => "url"
    case SetText(_) => "text"
    case UploadImages(_) => "images"
    case SetImageList(_) => "images"
  }

  /** Whether the form of a block of `kind` shows the input that makes edit `e` */
  predicate Offers(kind: string, e: FormEdit) {
    match e
    case SetLabel(_) => kind == "link" || kind == "social"
    case SetUrl(_) => kind == "link" || kind == "social" || kind == "video"
    case SetText(_) => kind == "text"
    case UploadImages(_) => kind == "gallery"
    case SetImageList(_) => kind == "gallery"
  }

  /** `[...(component.data?.images || [])]`: a string is spread into its characters */
  function CurrentImages(data: Option<Payload>): (r: seq<string>)
    ensures data.None? || "images" !in data.value ==> r == []
    ensures data.Some? && "images" in data.value && data.value["images"].List? ==> r == data.value["images"].items
    ensures data.Some? && "images" in data.value && data.value["images"].Str? ==>
      var t := data.value["images"].s; |r| == |t| && forall i :: 0 <= i < |t| ==> r[i] == [t[i]]
  {
    if data.None? || "images" !in data.value then []
    else match data.value["images"]
      case List(xs) => xs
      case Str(s) => seq(|s|, i requires 0 <= i < |s| => [s[i]])
  }

  /** The new `data` object an edit computes from the block's current one: one key set, the others kept */
  function Edited(data: Option<Payload>, e: FormEdit): (r: Payload)
    ensures EditKey(e) in r && r.Keys == data.GetOr(map[]).Keys + {EditKey(e)}
    ensures forall k :: k in data.GetOr(map[]) && k != EditKey(e) ==> r[k] == data.GetOr(map[])[k]
    ensures match e
      case SetLabel(s) => r["label"] == Str(s)
      case SetUrl(s) => r["url"] == Str(s)
      case SetText(s) => r["text"] == Str(s)
      case UploadImages(files) => r["images"] == List(CurrentImages(data) + files)
      case SetImageList(text) => r["images"] == List(Split(text, "\n"))
  {
    match e
    case SetLabel(s) => Patch(data, "label", Str(s))
    case SetUrl(s) => Patch(data, "url", Str(s))
    case SetText(s) => Patch(data, "text", Str(s))
    case UploadImages(files) => Patch(data, "images", List(CurrentImages(data) + files))
    case SetImageList(text) => Patch(data, "images", List(Split(text, "\n")))
  }

  /** Every input a freshly added block's form shows edits a key its default payload already has. */
  lemma DefaultDataCoversForm(kind: string, e: FormEdit)
    requires Offers(kind, e)
    ensures EditKey(e) in DefaultData(kind)
  {
  }

  /** A block of a kind outside the closed set shows no input at all. */
  lemma UnknownKindHasNoForm(kind: string, e: FormEdit)
    requires !IsKnownKind(kind)
    ensures !Offers(kind, e)
  {
  }

  /** Uploading keeps the existing images as a prefix and puts the new ones after them. */
  lemma UploadAppendsImages(data: Option<Payload>, files: seq<string>)
    requires data.Some? && "images" in data.value && data.value["images"].List?
    ensures var old_ := data.value["images"].items;
      var r := Edited(data, UploadImages(files));
      && r["images"].List?
      && r["images"].items[..|old_|] == old_
      && r["images"].items[|old_|..] == files
      && forall k :: k in data.value && k != "images" ==> k in r && r[k] == data.value[k]
  {
  }

  /**
   * Writing back the gallery textarea's own text, `images.join('\n')`, leaves
   * the payload unchanged when the list is non-empty and no entry holds a
   * line break.
   */
  lemma ImageListTextRoundTrip(d: Payload, xs: seq<string>)
    requires "images" in d && d["images"] == List(xs)
    requires |xs| > 0 && forall k :: 0 <= k < |xs| ==> '\n' !in xs[k]
    ensures Edited(Some(d), SetImageList(Join(xs, "\n"))) == d
  {
    var t := Join(xs, "\n");
    SplitJoin(xs, '\n');
    assert Split(t, "\n") == xs;
    var r := Edited(Some(d), SetImageList(t));
    assert r == Patch(Some(d), "images", List(xs));
    assert r.Keys == d.Keys;
    assert forall k :: k in d ==> r[k] == d[k];
  }

  /** Clearing the textarea of a gallery stores one empty image entry, not an empty list. */
  lemma ClearedImageListKeepsOneEntry(data: Option<Payload>)
    ensures Edited(data, SetImageList(""))["images"] == List([""])
  {
    assert IndexOf("", "\n", 0) == None;
  }

  /** The edit `SortableItem` number `k` makes through `onUpdate(id, ...)` */
  function EditAt(bs: seq<Block>, k: nat, e: FormEdit): (r: seq<Block>)
    requires k < |bs|
    ensures |r| == |bs| && Ids(r) == Ids(bs) && r[k].data == Some(Edited(bs[k].data, e))
    ensures forall j :: 0 <= j < |bs| && bs[j].id != bs[k].id ==> r[j] == bs[j]
  {
    UpdateDataOnlyTouchesData(bs, bs[k].id, Edited(bs[k].data, e));
    UpdateData(bs, bs[k].id, Edited(bs[k].data, e))
  }

  /**
   * With distinct ids a form edit on block `k` gives that block the data the
   * edit computes from its current data (exactly one key set, the others kept)
   * and leaves every other block as it was.
   */
  lemma EditAtSetsOneKey(bs: seq<Block>, k: nat, e: FormEdit)
    requires k < |bs| && DistinctIds(bs)
    ensures var r := EditAt(bs, k, e);
      && |r| == |bs|
      && (forall i :: 0 <= i < |bs| && i != k ==> r[i] == bs[i])
      && r[k].id == bs[k].id && r[k].kind == bs[k].kind && r[k].isEnabled == bs[k].isEnabled
      && r[k].data.Some? && r[k].data.value == Edited(bs[k].data, e)
      && EditKey(e) in r[k].data.value
      && r[k].data.value.Keys == bs[k].data.GetOr(map[]).Keys + {EditKey(e)}
      && forall key :: key in bs[k].data.GetOr(map[]) && key != EditKey(e) ==>
           r[k].data.value[key] == bs[k].data.GetOr(map[])[key]
  {
  }

  // ---------------------------------------------------------------- reorder

  function Without<T>(s: seq<T>, i: nat): (r: seq<T>)
    requires i < |s|
    ensures |r| == |s| - 1
  {
    s[..i] + s[i + 1..]
  }

  /** `arrayMove(s, from, to)` of dnd-kit: take the element out at `from`, put it back in at `to` */
  function ArrayMove<T>(s: seq<T>, from: nat, to: nat): (r: seq<T>)
    requires from < |s| && to < |s|
    ensures |r| == |s| && r[to] == s[from]
  {
    var rest := Without(s, from);
    rest[..to] + [s[from]] + rest[to..]
  }

  /** The moved element lands at `to`. */
  lemma ArrayMoveLands<T>(s: seq<T>, from: nat, to: nat)
    requires from < |s| && to < |s|
    ensures ArrayMove(s, from, to)[to] == s[from]
  {
  }

  /** Taking the moved element out of the result and out of the input leaves the same sequence. */
  lemma ArrayMoveKeepsOthers<T>(s: seq<T>, from: nat, to: nat)
    requires from < |s| && to < |s|
    ensures Without(ArrayMove(s, from, to), to) == Without(s, from)
  {
    var rest := Without(s, from);
    var r := ArrayMove(s, from, to);
    assert r[..to] == rest[..to];
    assert r[to + 1..] == rest[to..];
    assert rest[..to] + rest[to..] == rest;
  }

  /** Moving an element back from `to` to `from` undoes the move. */
  lemma ArrayMoveUndo<T>(s: seq<T>, from: nat, to: nat)
    requires from < |s| && to < |s|
    ensures ArrayMove(ArrayMove(s, from, to), to, from) == s
  {
    var r := ArrayMove(s, from, to);
    ArrayMoveKeepsOthers(s, from, to);
    ArrayMoveLands(s, from, to);
    var rest := Without(s, from);
    assert rest[..from] == s[..from];
    assert rest[from..] == s[from + 1..];
    assert s[..from] + [s[from]] + s[from + 1..] == s;
  }

  /** A move onto its own position changes nothing. */
  lemma ArrayMoveInPlace<T>(s: seq<T>, i: nat)
    requires i < |s|
    ensures ArrayMove(s, i, i) == s
  {
    assert s[..i] + [s[i]] + s[i + 1..] == s;
  }

  /** Where the element at index `i` of the moved sequence came from */
  function MovedFrom(from: nat, to: nat, i: nat): nat {
    if i == to then from
    else
      var w := if i < to then i else i - 1;
      if w < from then w else w + 1
  }

  lemma ArrayMoveAt<T>(s: seq<T>, from: nat, to: nat, i: nat)
    requires from < |s| && to < |s| && i < |s|
    ensures MovedFrom(from, to, i) < |s|
    ensures ArrayMove(s, from, to)[i] == s[MovedFrom(from, to, i)]
  {
  }

  /**
   * The move is a permutation that keeps the relative order of every pair of
   * elements other than the moved one.
   */
  lemma ArrayMoveIsPermutation<T>(s: seq<T>, from: nat, to: nat)
    requires from < |s| && to < |s|
    ensures multiset(ArrayMove(s, from, to)) == multiset(s)
    ensures forall i, j :: 0 <= i < j < |s| && i != to && j != to ==> MovedFrom(from, to, i) < MovedFrom(from, to, j)
    ensures forall i, j :: 0 <= i < |s| && 0 <= j < |s| && MovedFrom(from, to, i) == MovedFrom(from, to, j) ==> i == j
  {
    var rest := Without(s, from);
    calc {
      multiset(ArrayMove(s, from, to));
      multiset(rest[..to]) + multiset([s[from]]) + multiset(rest[to..]);
      { assert rest[..to] + rest[to..] == rest; }
      multiset(rest) + multiset([s[from]]);
      { assert s == s[..from] + [s[from]] + s[from + 1..]; }
      multiset(s);
    }
  }

  /** A permutation by `ArrayMove` keeps distinct ids distinct. */
  lemma ArrayMoveKeepsIdsDistinct(bs: seq<Block>, from: nat, to: nat)
    requires from < |bs| && to < |bs| && DistinctIds(bs)
    ensures DistinctIds(ArrayMove(bs, from, to))
  {
    ArrayMoveIsPermutation(bs, from, to);
    forall i, j | 0 <= i < j < |bs| ensures ArrayMove(bs, from, to)[i].id != ArrayMove(bs, from, to)[j].id {
      ArrayMoveAt(bs, from, to, i);
      ArrayMoveAt(bs, from, to, j);
    }
  }

  /** `items.findIndex(i => i._id === id)` */
  function FindIndex(bs: seq<Block>, id: string): (r: int)
    ensures -1 <= r < |bs|
    ensures r == -1 <==> !HasId(bs, id)
    ensures r >= 0 ==> bs[r].id == id && forall j :: 0 <= j < r ==> bs[j].id != id
  {
    if |bs| == 0 then -1
    else if bs[0].id == id then 0
    else
      var k := FindIndex(bs[1..], id);
      if k == -1 then -1 else k + 1
  }

  /** `handleDragEnd`: move the dragged block onto the slot of the block it was dropped over */
  function Reorder(bs: seq<Block>, active: string, over: string): (r: seq<Block>)
    requires HasId(bs, active) && HasId(bs, over)
    ensures |r| == |bs| && multiset(r) == multiset(bs)
    ensures r[FindIndex(bs, over)] == bs[FindIndex(bs, active)]
  {
    if active == over then bs
    else
      ArrayMoveIsPermutation(bs, FindIndex(bs, active), FindIndex(bs, over));
      ArrayMove(bs, FindIndex(bs, active), FindIndex(bs, over))
  }

  /**
   * Dropping a block on itself changes nothing; otherwise the result is a
   * permutation in which the dragged block stands at the former index of the
   * block it was dropped over and all other blocks keep their relative order.
   */
  lemma ReorderMoves(bs: seq<Block>, active: string, over: string)
    requires HasId(bs, active) && HasId(bs, over)
    ensures active == over ==> Reorder(bs, active, over) == bs
    ensures var r := Reorder(bs, active, over);
      var from, to := FindIndex(bs, active), FindIndex(bs, over);
      && multiset(r) == multiset(bs)
      && r[to] == bs[from]
      && Without(r, to) == Without(bs, from)
    ensures DistinctIds(bs) ==> DistinctIds(Reorder(bs, active, over))
  {
    var from, to := FindIndex(bs, active), FindIndex(bs, over);
    if active != over {
      ArrayMoveIsPermutation(bs, from, to);
      ArrayMoveLands(bs, from, to);
      ArrayMoveKeepsOthers(bs, from, to);
      if DistinctIds(bs) {
        ArrayMoveKeepsIdsDistinct(bs, from, to);
      }
    }
  }

  // ---------------------------------------------------------------- blocks without `_id`

  /**
   * Two blocks with the same id, such as two loaded without `_id`, cannot be
   * told apart by the handlers: a form edit on the first also rewrites the
   * second, and removing the first removes both.
   */
  lemma SharedIdEditsBoth(b0: Block, b1: Block, e: FormEdit)
    requires b0.id == b1.id
    ensures EditAt([b0, b1], 0, e)[1].data == Some(Edited(b0.data, e))
    ensures Remove([b0, b1], b0.id) == []
  {
    assert [b0, b1][1..] == [b1];
    assert [b1][1..] == [];
  }

  /** Every block loaded without `_id` is hit by the edit of any one of them. */
  lemma IdlessBlocksShareEdits(bs: seq<Block>, k: nat, e: FormEdit)
    requires k < |bs| && bs[k].id == MissingId
    ensures forall i :: 0 <= i < |bs| && bs[i].id == MissingId ==> EditAt(bs, k, e)[i].data == Some(Edited(bs[k].data, e))
  {
    UpdateDataOnlyTouchesData(bs, bs[k].id, Edited(bs[k].data, e));
  }
}
