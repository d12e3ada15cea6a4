/**
 The pure decisions of the gallery add-on (src/components/SEOFriendlyImageNames.tsx):
 re-sorting fetched uploads into gallery order, computing each upload's target
 basename, listing the uploads whose basename differs, and reconciling local
 state after a single rename. Host API calls are replaced by their results,
 passed in as parameters.
 */
module Gallery {
  import opened Wrappers
  import opened JsText
  import opened Slug

  /** The fields of an upload record the add-on reads. `format` and `mimeType` may be null. */
  datatype Upload = Upload(
    id: string,
    basename: string,
    filename: string,
    format: Option<string>,
    mimeType: Option<string>,
    md5: string,
    url: string)

  /** The linked collection record; `product_type` may be missing. */
  datatype Collection = Collection(productType: Option<string>)

  /** The thumbnail shown next to an entry: a compressed preview of an image, or the video icon. */
  datatype Thumbnail = Preview(src: string) | VideoIcon

  /** One row of the "needs update" list. */
  datatype ImageNeedingUpdate = ImageNeedingUpdate(
    id: string,
    currentBasename: string,
    slugifiedBasename: string,
    ext: string,
    thumbnail: Thumbnail)

  /** An error the host client raises: its `name` ("Error", "TypeError", ...) and its `message`. */
  datatype HostError = HostError(name: string, message: string)

  /** Why a single rename left the local state as it was. */
  datatype RenameError =
    | HostRejected(error: HostError)
    | BasenameMismatch(id: string, returned: string, requested: string)

  /** Local state after a single rename, and the error raised (and logged) if any. */
  datatype RenameOutcome = RenameOutcome(images: seq<Option<Upload>>, error: Option<RenameError>)

  /** The `productType` memo: the collection's product type when it is a non-empty string, else "". */
  function ProductType(collection: Option<Collection>): (r: string)
    ensures r != "" ==> collection.Some? && collection.value.productType == Some(r)
    ensures collection.Some? && collection.value.productType.Some? ==>
              r == collection.value.productType.value
  {
    match collection
    case None => ""
    case Some(c) =>
      match c.productType
      case Some(t) => if t != "" then t else ""
      case None => ""
  }

  // ---------------------------------------------------------------------------
  // Re-sorting fetched uploads into the order of the requested ids

  /** The first position of `x` in `ids` from position `from` on, or -1 when there is none. */
  function IndexOfFrom(ids: seq<string>, x: string, from: nat): (r: int)
    requires from <= |ids|
    ensures r == -1 || from <= r < |ids|
    ensures r >= 0 ==> ids[r] == x && forall j | from <= j < r :: ids[j] != x
    ensures r == -1 ==> forall j | from <= j < |ids| :: ids[j] != x
    decreases |ids| - from
  {
    if from == |ids| then -1
    else if ids[from] == x then from
    else IndexOfFrom(ids, x, from + 1)
  }

  /** The first position of `x` in `ids`, or -1. */
  function IndexOf(ids: seq<string>, x: string): (r: int)
    ensures -1 <= r < |ids|
    ensures r >= 0 ==> ids[r] == x && forall j | 0 <= j < r :: ids[j] != x
    ensures r == -1 <==> x !in ids
  {
    IndexOfFrom(ids, x, 0)
  }

  /** A write into a JavaScript array at index `idx`: writing past the end leaves holes. */
  function Store(arr: seq<Option<Upload>>, idx: nat, u: Upload): (r: seq<Option<Upload>>)
    ensures |r| == if idx < |arr| then |arr| else idx + 1
    ensures r[idx] == Some(u)
    ensures forall i | 0 <= i < |r| && i != idx :: r[i] == if i < |arr| then arr[i] else None
  {
    if idx < |arr| then arr[idx := Some(u)]
    else arr + seq(idx - |arr|, _ => None) + [Some(u)]
  }

  /** Reference: the length the sparse array reaches once `fetched` has been placed. */
  ghost function Span(ids: seq<string>, fetched: seq<Upload>): nat {
    if fetched == [] then 0
    else
      var before := Span(ids, fetched[..|fetched| - 1]);
      var idx := IndexOf(ids, fetched[|fetched| - 1].id);
      if idx + 1 > before then idx + 1 else before
  }

  /** Reference: what slot `i` holds, the last fetched upload whose id is first requested at `i`. */
  ghost function Placed(ids: seq<string>, fetched: seq<Upload>, i: nat): Option<Upload> {
    if fetched == [] then None
    else if IndexOf(ids, fetched[|fetched| - 1].id) == i then Some(fetched[|fetched| - 1])
    else Placed(ids, fetched[..|fetched| - 1], i)
  }

  /**
   The re-sort in `fetchImageData`: each fetched upload is written at the
   position where its id was requested, so later duplicates overwrite earlier
   ones, unrequested ids are dropped and unfilled positions stay holes.
   */
  method Reorder(ids: seq<string>, fetched: seq<Upload>) returns (r: seq<Option<Upload>>)
    ensures |r| == Span(ids, fetched)
    ensures forall i | 0 <= i < |r| :: r[i] == Placed(ids, fetched, i)
    ensures Distinct(ids) && multiset(IdsOf(fetched)) == multiset(ids) ==>
              |r| == |ids| && forall i | 0 <= i < |ids| :: r[i].Some? && r[i].value.id == ids[i]
  {
    r := [];
    var k := 0;
    while k < |fetched|
      invariant 0 <= k <= |fetched|
      invariant |r| == Span(ids, fetched[..k])
      invariant forall i | 0 <= i < |r| :: r[i] == Placed(ids, fetched[..k], i)
    {
      var u := fetched[k];
      assert fetched[..k + 1][..k] == fetched[..k];
      assert fetched[..k + 1][k] == u;
      var idx := IndexOf(ids, u.id);
      if idx >= 0 {
        PlacedBeyondSpan(ids, fetched[..k]);
        r := Store(r, idx, u);
      }
      k := k + 1;
    }
    assert fetched[..k] == fetched;
    if Distinct(ids) && multiset(IdsOf(fetched)) == multiset(ids) {
      ReorderRestoresOrder(ids, fetched);
    }
  }

  /** No id is requested twice. */
  predicate Distinct(ids: seq<string>) {
    forall i, j | 0 <= i < j < |ids| :: ids[i] != ids[j]
  }

  /** The ids of a list of uploads. */
  function IdsOf(uploads: seq<Upload>): (r: seq<string>)
    ensures |r| == |uploads| && forall k | 0 <= k < |uploads| :: r[k] == uploads[k].id
  {
    seq(|uploads|, k requires 0 <= k < |uploads| => uploads[k].id)
  }

  /** Slots at or past the span are never filled. */
  lemma {:induction false} PlacedBeyondSpan(ids: seq<string>, fetched: seq<Upload>)
    ensures forall i: nat | i >= Span(ids, fetched) :: Placed(ids, fetched, i) == None
  {
    if fetched != [] {
      PlacedBeyondSpan(ids, fetched[..|fetched| - 1]);
    }
  }

  /** A filled slot holds an upload whose id is first requested at that slot. */
  lemma {:induction false} PlacedId(ids: seq<string>, fetched: seq<Upload>, i: nat)
    requires Placed(ids, fetched, i).Some?
    ensures IndexOf(ids, Placed(ids, fetched, i).value.id) == i
  {
    if IndexOf(ids, fetched[|fetched| - 1].id) != i {
      PlacedId(ids, fetched[..|fetched| - 1], i);
    }
  }

  /** A slot some fetched upload belongs to is filled, and the span reaches past it. */
  lemma {:induction false} PlacedFilled(ids: seq<string>, fetched: seq<Upload>, k: nat)
    requires k < |fetched| && IndexOf(ids, fetched[k].id) >= 0
    ensures Placed(ids, fetched, IndexOf(ids, fetched[k].id)).Some?
    ensures Span(ids, fetched) > IndexOf(ids, fetched[k].id)
  {
    if k < |fetched| - 1 {
      var prefix := fetched[..|fetched| - 1];
      assert prefix[k] == fetched[k];
      PlacedFilled(ids, prefix, k);
    }
  }

  /** The span never exceeds the number of requested ids. */
  lemma {:induction false} SpanBound(ids: seq<string>, fetched: seq<Upload>)
    ensures Span(ids, fetched) <= |ids|
  {
    if fetched != [] {
      SpanBound(ids, fetched[..|fetched| - 1]);
    }
  }

  /**
   When the uploads fetched are exactly the distinct requested ids, in any order,
   the re-sorted list has no holes and its i-th upload has the i-th id.
   */
  lemma {:induction false} ReorderRestoresOrder(ids: seq<string>, fetched: seq<Upload>)
    requires Distinct(ids)
    requires multiset(IdsOf(fetched)) == multiset(ids)
    ensures Span(ids, fetched) == |ids|
    ensures forall i | 0 <= i < |ids| ::
      Placed(ids, fetched, i).Some? && Placed(ids, fetched, i).value.id == ids[i]
  {
    SpanBound(ids, fetched);
    forall i | 0 <= i < |ids|
      ensures Placed(ids, fetched, i).Some? && Placed(ids, fetched, i).value.id == ids[i]
      ensures Span(ids, fetched) > i
    {
      RequestedIdPlaced(ids, fetched, i);
    }
    if |ids| > 0 {
      RequestedIdPlaced(ids, fetched, |ids| - 1);
    }
  }

  /** A requested id that was fetched fills its own slot. */
  lemma {:induction false} RequestedIdPlaced(ids: seq<string>, fetched: seq<Upload>, i: nat)
    requires Distinct(ids)
    requires i < |ids| && ids[i] in multiset(IdsOf(fetched))
    ensures Placed(ids, fetched, i).Some? && Placed(ids, fetched, i).value.id == ids[i]
    ensures Span(ids, fetched) > i
  {
    var fetchedIds := IdsOf(fetched);
    assert ids[i] in fetchedIds;
    var k :| 0 <= k < |fetched| && fetchedIds[k] == ids[i];
    assert IndexOf(ids, fetched[k].id) == i;
    PlacedFilled(ids, fetched, k);
    PlacedId(ids, fetched, i);
  }

  // ---------------------------------------------------------------------------
  // Target basenames and the "needs update" list

  /** The target basename of one upload: its MIME type and the first five characters of its md5. */
  function ComputedName(img: Upload, productType: string, productHandle: StringValue): string {
    SlugifyImageName(productType, productHandle, img.mimeType, NumberSuffix(img.md5))
  }

  /**
   A product without a handle still gets names: the handle's place holds the
   text "null" or "undefined", as the template literal prints the missing value.
   */
  lemma {:induction false} MissingHandlePrinted(img: Upload, productType: string, productHandle: StringValue)
    requires !productHandle.Given?
    ensures var printed := if productHandle.NullValue? then "null" else "undefined";
            ComputedName(img, productType, productHandle)
              == SlugifyProductType(productType) + "-" + printed + "-" + MediaKind(img.mimeType)
                 + "-" + NumberSuffix(img.md5)
  {
  }

  /** `updatedImageNames`: one target basename per upload, holes kept as holes. */
  function UpdatedImageNames(images: seq<Option<Upload>>, productType: string, productHandle: StringValue)
    : (r: seq<Option<string>>)
    ensures |r| == |images|
    ensures forall i | 0 <= i < |images| :: r[i].Some? <==> images[i].Some?
    ensures forall i | 0 <= i < |images| && images[i].Some? ::
      r[i].value == ComputedName(images[i].value, productType, productHandle)
  {
    seq(|images|, i requires 0 <= i < |images| =>
      if images[i].Some? then Some(ComputedName(images[i].value, productType, productHandle)) else None)
  }

  /**
   Slot `i` holds an upload whose current basename differs, exactly and
   case-sensitively, from the target name computed for that slot.
   */
  predicate NeedsUpdateAt(images: seq<Option<Upload>>, names: seq<Option<string>>, i: nat)
    requires i < |images| == |names|
  {
    images[i].Some? && names[i].Some? && images[i].value.basename != names[i].value
  }

  /** A `\.([0-9a-z]+)(?:[?#]|$)` match, case-insensitive, at `p` with a captured group of `len` characters. */
  ghost predicate ExtMatchAt(s: string, p: int, len: int) {
    && 0 <= p && 1 <= len && p + 1 + len <= |s|
    && s[p] == '.'
    && (forall j | p + 1 <= j < p + 1 + len :: IsAsciiAlnum(s[j]))
    && (p + 1 + len == |s| || s[p + 1 + len] == '?' || s[p + 1 + len] == '#')
  }

  /** The number of ASCII letters and digits starting at `from`. */
  function AlnumRun(s: string, from: nat): (n: nat)
    requires from <= |s|
    ensures from + n <= |s|
    ensures forall j | from <= j < from + n :: IsAsciiAlnum(s[j])
    ensures from + n == |s| || !IsAsciiAlnum(s[from + n])
    decreases |s| - from
  {
    if from == |s| || !IsAsciiAlnum(s[from]) then 0 else 1 + AlnumRun(s, from + 1)
  }

  /** At one position the group can only be the whole letter-and-digit run: backtracking never helps. */
  lemma {:induction false} ExtMatchUnique(s: string, p: int, len: int)
    requires 0 <= p < |s|
    ensures ExtMatchAt(s, p, len) <==>
      s[p] == '.' && len == AlnumRun(s, p + 1) && len >= 1 &&
      (p + 1 + len == |s| || s[p + 1 + len] == '?' || s[p + 1 + len] == '#')
  {
  }

  /** The regex matches at no position in `[lo, hi)`. */
  ghost predicate NoExtMatchBetween(s: string, lo: int, hi: int) {
    forall q, len | lo <= q < hi :: !ExtMatchAt(s, q, len)
  }

  /**
   `r` is what a search from `p` on answers: the group of the leftmost match,
   or nothing when the regex matches nowhere from `p` on.
   */
  ghost predicate IsLeftmostExt(s: string, p: nat, r: Option<string>) {
    && (r.Some? ==> exists q | p <= q < |s| ::
          && ExtMatchAt(s, q, |r.value|)
          && r.value == s[q + 1..q + 1 + |r.value|]
          && NoExtMatchBetween(s, p, q))
    && (r.None? ==> NoExtMatchBetween(s, p, |s|))
  }

  /** The regex search from position `p` on: the group of the leftmost match. */
  function ExtSearch(s: string, p: nat): (r: Option<string>)
    requires p <= |s|
    ensures IsLeftmostExt(s, p, r)
    decreases |s| - p
  {
    if p == |s| then None
    else
      var n := AlnumRun(s, p + 1);
      if s[p] == '.' && n >= 1 && (p + 1 + n == |s| || s[p + 1 + n] == '?' || s[p + 1 + n] == '#')
      then
        ExtMatchUnique(s, p, n);
        Some(s[p + 1..p + 1 + n])
      else
        var rest := ExtSearch(s, p + 1);
        ExtSearchMiss(s, p, rest);
        rest
  }

  /** No match at `p`: the search from `p` answers what the search from `p + 1` does. */
  lemma {:induction false} ExtSearchMiss(s: string, p: nat, rest: Option<string>)
    requires p < |s|
    requires !(s[p] == '.' && AlnumRun(s, p + 1) >= 1 &&
               (p + 1 + AlnumRun(s, p + 1) == |s| || s[p + 1 + AlnumRun(s, p + 1)] == '?'
                || s[p + 1 + AlnumRun(s, p + 1)] == '#'))
    requires IsLeftmostExt(s, p + 1, rest)
    ensures IsLeftmostExt(s, p, rest)
  {
    forall len ensures !ExtMatchAt(s, p, len) {
      ExtMatchUnique(s, p, len);
    }
    if rest.Some? {
      var q :| p + 1 <= q < |s| && ExtMatchAt(s, q, |rest.value|)
               && rest.value == s[q + 1..q + 1 + |rest.value|] && NoExtMatchBetween(s, p + 1, q);
      assert NoExtMatchBetween(s, p, q);
    }
  }

  /**
   The `ext` of an entry: the upload's `format` when it is not null, otherwise the
   extension the regex finds in `filename`, otherwise "".
   */
  function Ext(img: Upload): (r: string)
    ensures img.format.Some? ==> r == img.format.value
    ensures img.format.None? ==>
      && (r != "" ==> exists q | 0 <= q < |img.filename| ::
            && ExtMatchAt(img.filename, q, |r|)
            && r == img.filename[q + 1..q + 1 + |r|]
            && NoExtMatchBetween(img.filename, 0, q))
      && (r == "" ==> forall q, len :: !ExtMatchAt(img.filename, q, len))
  {
    match img.format
    case Some(f) => f
    case None => ExtSearch(img.filename, 0).GetOr("")
  }

  /** The entry's thumbnail: a compressed preview when the MIME type starts with "image", else the video icon. */
  function ThumbnailOf(img: Upload): (r: Thumbnail)
    ensures r.Preview? <==> img.mimeType.Some? && StartsWith(img.mimeType.value, "image")
    ensures r.Preview? ==> r.src == img.url + "?auto=compress&w=50&h=50&fit=crop"
  {
    if img.mimeType.Some? && StartsWith(img.mimeType.value, "image")
    then Preview(img.url + "?auto=compress&w=50&h=50&fit=crop")
    else VideoIcon
  }

  /** The row listed for an upload that needs the new basename `name`. */
  function EntryFor(img: Upload, name: string): ImageNeedingUpdate {
    ImageNeedingUpdate(img.id, img.basename, name, Ext(img), ThumbnailOf(img))
  }

  /** The `flatMap` of `imagesNeedingUpdate` over slots `from` onwards, against the target `names`; holes are skipped. */
  function NeedingFrom(images: seq<Option<Upload>>, names: seq<Option<string>>, from: nat)
    : (r: seq<ImageNeedingUpdate>)
    requires from <= |images| == |names|
    ensures |r| <= |images| - from
    ensures forall k | 0 <= k < |r| :: r[k].currentBasename != r[k].slugifiedBasename
    decreases |images| - from
  {
    if from == |images| then []
    else
      (if NeedsUpdateAt(images, names, from) then [EntryFor(images[from].value, names[from].value)] else [])
      + NeedingFrom(images, names, from + 1)
  }

  /** `imagesNeedingUpdate`: the rows of the uploads whose basename is not yet their target name. */
  function ImagesNeedingUpdate(images: seq<Option<Upload>>, productType: string, productHandle: StringValue)
    : (r: seq<ImageNeedingUpdate>)
    ensures |r| <= |images|
    ensures forall k | 0 <= k < |r| :: r[k].currentBasename != r[k].slugifiedBasename
  {
    NeedingFrom(images, UpdatedImageNames(images, productType, productHandle), 0)
  }

  /** Reference: the slots, in increasing order, whose upload needs an update. */
  ghost function NeedIndicesFrom(images: seq<Option<Upload>>, names: seq<Option<string>>, from: nat): seq<nat>
    requires from <= |images| == |names|
    decreases |images| - from
  {
    if from == |images| then []
    else (if NeedsUpdateAt(images, names, from) then [from] else []) + NeedIndicesFrom(images, names, from + 1)
  }

  /** The rows from slot `from` on are the entries of the slots needing update, in step. */
  lemma {:induction false} NeedingFromEntries(images: seq<Option<Upload>>, names: seq<Option<string>>, from: nat)
    requires from <= |images| == |names|
    ensures var r := NeedingFrom(images, names, from);
            var idx := NeedIndicesFrom(images, names, from);
            && |idx| == |r|
            && forall k | 0 <= k < |idx| ::
                 from <= idx[k] < |images| && images[idx[k]].Some? && names[idx[k]].Some?
                 && r[k] == EntryFor(images[idx[k]].value, names[idx[k]].value)
    decreases |images| - from
  {
    if from < |images| {
      NeedingFromEntries(images, names, from + 1);
      var r := NeedingFrom(images, names, from + 1);
      var idx := NeedIndicesFrom(images, names, from + 1);
      if NeedsUpdateAt(images, names, from) {
        var e := EntryFor(images[from].value, names[from].value);
        assert NeedingFrom(images, names, from) == [e] + r;
        assert NeedIndicesFrom(images, names, from) == [from] + idx;
      } else {
        assert NeedingFrom(images, names, from) == r;
        assert NeedIndicesFrom(images, names, from) == idx;
      }
    }
  }

  /** `idx` is strictly increasing with every element in `[lo, hi)`. */
  ghost predicate IncreasingWithin(idx: seq<nat>, lo: nat, hi: nat) {
    && (forall k | 0 <= k < |idx| :: lo <= idx[k] < hi)
    && (forall k, l | 0 <= k < l < |idx| :: idx[k] < idx[l])
  }

  /** The slots needing update are increasing and lie at or after `from`. */
  lemma {:induction false} NeedIndicesIncreasing(images: seq<Option<Upload>>, names: seq<Option<string>>, from: nat)
    requires from <= |images| == |names|
    ensures IncreasingWithin(NeedIndicesFrom(images, names, from), from, |images|)
    decreases |images| - from
  {
    if from < |images| {
      NeedIndicesIncreasing(images, names, from + 1);
      var idx := NeedIndicesFrom(images, names, from + 1);
      if NeedsUpdateAt(images, names, from) {
        assert NeedIndicesFrom(images, names, from) == [from] + idx;
        IncreasingCons(from, idx, |images|);
      } else {
        assert NeedIndicesFrom(images, names, from) == idx;
        IncreasingWiden(idx, from, |images|);
      }
    }
  }

  lemma {:induction false} IncreasingCons(lo: nat, idx: seq<nat>, hi: nat)
    requires lo < hi && IncreasingWithin(idx, lo + 1, hi)
    ensures IncreasingWithin([lo] + idx, lo, hi)
  {
    var all := [lo] + idx;
    assert forall k | 1 <= k < |all| :: all[k] == idx[k - 1];
  }

  lemma {:induction false} IncreasingWiden(idx: seq<nat>, lo: nat, hi: nat)
    requires IncreasingWithin(idx, lo + 1, hi)
    ensures IncreasingWithin(idx, lo, hi)
  {
  }

  /** A slot from `from` on is listed exactly when its upload needs an update. */
  lemma {:induction false} NeedIndicesMembership(images: seq<Option<Upload>>, names: seq<Option<string>>,
                                                 from: nat, i: nat)
    requires from <= i < |images| == |names|
    ensures i in NeedIndicesFrom(images, names, from) <==> NeedsUpdateAt(images, names, i)
    decreases |images| - from
  {
    var idx := NeedIndicesFrom(images, names, from + 1);
    var all := NeedIndicesFrom(images, names, from);
    assert all == if NeedsUpdateAt(images, names, from) then [from] + idx else idx;
    if i == from {
      assert from !in idx by {
        NeedIndicesIncreasing(images, names, from + 1);
      }
    } else {
      NeedIndicesMembership(images, names, from + 1, i);
    }
  }

  /**
   `imagesNeedingUpdate` lists exactly the uploads whose basename differs from
   the name computed at the same position, in gallery order, each carrying that
   name, its current basename, its extension and its thumbnail.
   */
  lemma {:induction false} ImagesNeedingUpdateExactly(images: seq<Option<Upload>>, productType: string,
                                                      productHandle: StringValue)
    ensures var r := ImagesNeedingUpdate(images, productType, productHandle);
            var names := UpdatedImageNames(images, productType, productHandle);
            var idx := NeedIndicesFrom(images, names, 0);
            && |idx| == |r|
            && (forall k | 0 <= k < |idx| ::
                  idx[k] < |images| && images[idx[k]].Some?
                  && r[k].id == images[idx[k]].value.id
                  && r[k].currentBasename == images[idx[k]].value.basename
                  && r[k].slugifiedBasename == names[idx[k]].value
                  && r[k].ext == Ext(images[idx[k]].value)
                  && r[k].thumbnail == ThumbnailOf(images[idx[k]].value))
            && (forall k, l | 0 <= k < l < |idx| :: idx[k] < idx[l])
            && (forall i | 0 <= i < |images| ::
                  i in idx <==> images[i].Some? && images[i].value.basename != names[i].value)
  {
    var names := UpdatedImageNames(images, productType, productHandle);
    NeedingFromEntries(images, names, 0);
    NeedIndicesIncreasing(images, names, 0);
    forall i | 0 <= i < |images|
      ensures i in NeedIndicesFrom(images, names, 0) <==> NeedsUpdateAt(images, names, i)
    {
      NeedIndicesMembership(images, names, 0, i);
    }
  }

  // ---------------------------------------------------------------------------
  // Reconciling local state after a single rename

  /** Every upload with the id of `updated` is replaced by it; every other slot is kept. */
  function ReplaceById(images: seq<Option<Upload>>, updated: Upload): (r: seq<Option<Upload>>)
    ensures |r| == |images|
  {
    seq(|images|, i requires 0 <= i < |images| =>
      if images[i].Some? && images[i].value.id == updated.id then Some(updated) else images[i])
  }

  /**
   The state change of `updateSingleFile`. `response` is the host's answer to the
   rename call: the updated upload, or the error it raised. State
   changes only when the returned basename equals the requested one; then exactly
   the uploads with the returned id are replaced by it.
   */
  function UpdateSingleFile(images: seq<Option<Upload>>, id: string, newBasename: string,
                            response: Result<Upload, HostError>): (r: RenameOutcome)
    ensures r.error.None? <==> response.Ok? && response.value.basename == newBasename
    ensures r.error.Some? ==> r.images == images
    ensures response.Err? ==> r.error == Some(HostRejected(response.error))
    ensures response.Ok? && response.value.basename != newBasename ==>
              r.error == Some(BasenameMismatch(id, response.value.basename, newBasename))
    ensures |r.images| == |images|
    ensures r.error.None? ==> forall i | 0 <= i < |images| ::
      if images[i].Some? && images[i].value.id == response.value.id
      then r.images[i] == Some(response.value)
      else r.images[i] == images[i]
  {
    match response
    case Err(error) => RenameOutcome(images, Some(HostRejected(error)))
    case Ok(updated) =>
      if updated.basename == newBasename
      then RenameOutcome(ReplaceById(images, updated), None)
      else RenameOutcome(images, Some(BasenameMismatch(id, updated.basename, newBasename)))
  }

  /** What the editor is shown once a confirmed single rename has finished. */
  datatype Feedback = Notice(message: string) | Alert(message: string)

  /**
   An error as a template literal prints it. A host error prints its name and
   message; the basename check throws a plain `Error` whose message names the
   upload and both basenames.
   */
  function ErrorText(e: RenameError): (r: string)
    ensures e.HostRejected? ==> r == ErrorString(e.error.name, e.error.message)
    ensures e.HostRejected? && e.error.name != "" && e.error.message != "" ==>
              StartsWith(r, e.error.name + ": ") && r[|e.error.name| + 2..] == e.error.message
    ensures e.BasenameMismatch? ==>
              r == "Error: Image " + e.id + " basename mismatch even after update: "
                   + e.returned + " does not match " + e.requested
  {
    match e
    case HostRejected(error) => ErrorString(error.name, error.message)
    case BasenameMismatch(id, returned, requested) =>
      ErrorString("Error", "Image " + id + " basename mismatch even after update: " + returned
                           + " does not match " + requested)
  }

  /**
   `handleSingleFileUpdate` after the editor confirms, as written: the error of
   `updateSingleFile` is caught and logged inside it and never reaches the
   caller, so the success notice is shown whatever happened.
   */
  function ConfirmedRenameAsWritten(images: seq<Option<Upload>>, entry: ImageNeedingUpdate,
                                    response: Result<Upload, HostError>): (r: (RenameOutcome, Feedback))
    ensures r.0 == UpdateSingleFile(images, entry.id, entry.slugifiedBasename, response)
    ensures r.1 == Notice("Updated to " + entry.slugifiedBasename)
  {
    (UpdateSingleFile(images, entry.id, entry.slugifiedBasename, response),
     Notice("Updated to " + entry.slugifiedBasename))
  }

  /** A rename the host rejects is still reported to the editor as done. */
  lemma {:induction false} FailedRenameReportedAsDone()
    ensures var entry := ImageNeedingUpdate("u1", "photo", "shirts-tee-image-ab12c", "jpg", VideoIcon);
            var r := ConfirmedRenameAsWritten([], entry, Err(HostError("TypeError", "Failed to fetch")));
            r.0.error.Some? && r.1.Notice?
  {
    var entry := ImageNeedingUpdate("u1", "photo", "shirts-tee-image-ab12c", "jpg", VideoIcon);
    var r := ConfirmedRenameAsWritten([], entry, Err(HostError("TypeError", "Failed to fetch")));
    assert r.0.error == Some(HostRejected(HostError("TypeError", "Failed to fetch")));
  }

  /**
   `handleSingleFileUpdate` after the editor confirms, with the rename's error
   reaching the caller's `catch`: the notice exactly when the rename went
   through, otherwise the alert naming the current basename and the error.
   */
  function ConfirmedRename(images: seq<Option<Upload>>, entry: ImageNeedingUpdate,
                           response: Result<Upload, HostError>): (r: (RenameOutcome, Feedback))
    ensures r.0 == UpdateSingleFile(images, entry.id, entry.slugifiedBasename, response)
    ensures r.1.Notice? <==> response.Ok? && response.value.basename == entry.slugifiedBasename
    ensures r.1.Notice? ==> r.1.message == "Updated to " + entry.slugifiedBasename
    ensures r.1.Alert? ==>
      && r.0.images == images
      && r.0.error.Some?
      && r.1.message == "Failed to update " + entry.currentBasename + ": " + ErrorText(r.0.error.value)
  {
    var outcome := UpdateSingleFile(images, entry.id, entry.slugifiedBasename, response);
    match outcome.error
    case None => (outcome, Notice("Updated to " + entry.slugifiedBasename))
    case Some(e) => (outcome, Alert("Failed to update " + entry.currentBasename + ": " + ErrorText(e)))
  }

  /** The rows whose id is not `id`, in order. */
  function WithoutId(entries: seq<ImageNeedingUpdate>, id: string): (r: seq<ImageNeedingUpdate>)
    ensures forall k | 0 <= k < |r| :: r[k].id != id
  {
    if entries == [] then []
    else (if entries[0].id == id then [] else [entries[0]]) + WithoutId(entries[1..], id)
  }

  /**
   Replacing the uploads of one id by an upload whose target name is its own
   basename removes exactly that id's rows from the list, keeping the others.
   */
  lemma {:induction false} ReplaceByIdNeeding(images: seq<Option<Upload>>, names: seq<Option<string>>,
                                              updated: Upload, namesAfter: seq<Option<string>>, from: nat)
    requires from <= |images| == |names| == |namesAfter|
    requires forall i | 0 <= i < |images| ::
      namesAfter[i] == if images[i].Some? && images[i].value.id == updated.id then Some(updated.basename) else names[i]
    ensures NeedingFrom(ReplaceById(images, updated), namesAfter, from)
         == WithoutId(NeedingFrom(images, names, from), updated.id)
    decreases |images| - from
  {
    if from < |images| {
      ReplaceByIdNeeding(images, names, updated, namesAfter, from + 1);
      var replaced := ReplaceById(images, updated);
      var rest := NeedingFrom(images, names, from + 1);
      var restAfter := NeedingFrom(replaced, namesAfter, from + 1);
      if images[from].Some? && images[from].value.id == updated.id {
        assert replaced[from] == Some(updated) && namesAfter[from] == Some(updated.basename);
        assert NeedingFrom(replaced, namesAfter, from) == restAfter;
        if NeedsUpdateAt(images, names, from) {
          var e := EntryFor(images[from].value, names[from].value);
          assert NeedingFrom(images, names, from) == [e] + rest;
          WithoutIdHead(e, rest, updated.id);
        } else {
          assert NeedingFrom(images, names, from) == rest;
        }
      } else {
        assert replaced[from] == images[from] && namesAfter[from] == names[from];
        if NeedsUpdateAt(images, names, from) {
          var e := EntryFor(images[from].value, names[from].value);
          assert NeedingFrom(images, names, from) == [e] + rest;
          assert NeedingFrom(replaced, namesAfter, from) == [e] + restAfter;
          WithoutIdHead(e, rest, updated.id);
        } else {
          assert NeedingFrom(images, names, from) == rest;
          assert NeedingFrom(replaced, namesAfter, from) == restAfter;
        }
      }
    }
  }

  /** Removing an id from a list with a known head. */
  lemma {:induction false} WithoutIdHead(e: ImageNeedingUpdate, rest: seq<ImageNeedingUpdate>, id: string)
    ensures WithoutId([e] + rest, id) == (if e.id == id then [] else [e]) + WithoutId(rest, id)
  {
    assert ([e] + rest)[0] == e && ([e] + rest)[1..] == rest;
  }

  /**
   A confirmed rename to an upload's own target basename resolves its row: the
   list afterwards is the list before without the rows of that id, and every
   other row is unchanged.
   */
  lemma {:induction false} RenameResolvesEntry(images: seq<Option<Upload>>, id: string, newBasename: string,
                            response: Result<Upload, HostError>, productType: string, productHandle: StringValue)
    requires response.Ok? && response.value.basename == newBasename
    requires newBasename == ComputedName(response.value, productType, productHandle)
    ensures var after := UpdateSingleFile(images, id, newBasename, response);
            && after.error.None?
            && ImagesNeedingUpdate(after.images, productType, productHandle)
               == WithoutId(ImagesNeedingUpdate(images, productType, productHandle), response.value.id)
  {
    var updated := response.value;
    var replaced := ReplaceById(images, updated);
    var names := UpdatedImageNames(images, productType, productHandle);
    var namesAfter := UpdatedImageNames(replaced, productType, productHandle);
    forall i | 0 <= i < |images|
      ensures namesAfter[i] == if images[i].Some? && images[i].value.id == updated.id
                               then Some(updated.basename) else names[i]
    {
      if !(images[i].Some? && images[i].value.id == updated.id) {
        assert replaced[i] == images[i];
      }
    }
    ReplaceByIdNeeding(images, names, updated, namesAfter, 0);
  }
}
