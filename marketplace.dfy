/**
  The state-changing views of marketplace/views.py (`post_item`, `edit_item`,
  `delete_item`, `message_seller`, `toggle_favorite`) as methods of a `Store`
  that stands for the database: the catalog newest first, each item's product
  and outcome images, the (user, item) favourite pairs and the messages.
  The signed-in user is an explicit parameter (every one of these views
  requires a login); `isPost` tells a POST from a GET.
 */
module Marketplace {
  import opened Wrappers
  import opened Goods
  import opened Forms
  import opened QuerySets
  import opened Catalog

  const MaxProductImages := 3
  const MaxOutcomeImages := 5

  /** A `Message` row: which item, who sent it, what it says. */
  datatype Message = Message(item: ItemId, sender: UserId, content: string)

  /** How a view ends: not found (404), refused for a non-owner, the page
      (form, confirmation or thread) rendered, or a redirect after success. */
  datatype Outcome = NotFound | PermissionDenied | ShowPage | Redirect

  function Min(a: nat, b: nat): nat
  {
    if a <= b then a else b
  }

  /** `for i, img in enumerate(uploads[:limit])`: the first `limit` uploads
      become image rows numbered 0, 1, 2, ... */
  method NumberUploads(uploads: seq<Upload>, limit: nat) returns (imgs: seq<Image>)
    ensures |imgs| == Min(|uploads|, limit)
    ensures forall i :: 0 <= i < |imgs| ==> imgs[i] == Image(uploads[i], i)
  {
    var n := Min(|uploads|, limit);
    imgs := [];
    var i := 0;
    while i < n
      invariant 0 <= i <= n
      invariant |imgs| == i
      invariant forall k :: 0 <= k < i ==> imgs[k] == Image(uploads[k], k)
    {
      imgs := imgs + [Image(uploads[i], i)];
      i := i + 1;
    }
  }

  /** The catalog after `form.save()` on the row with key `id`. */
  function Edited(items: seq<Item>, id: ItemId, f: Fields): seq<Item>
  {
    seq(|items|, i requires 0 <= i < |items| => if items[i].id == id then Save(items[i], f) else items[i])
  }

  lemma EditedKeepsKeysAndOrder(items: seq<Item>, id: ItemId, f: Fields)
    ensures Ids(Edited(items, id, f)) == Ids(items)
    ensures DistinctIds(items) ==> DistinctIds(Edited(items, id, f))
    ensures NewestFirst(items) ==> NewestFirst(Edited(items, id, f))
    ensures forall x :: x in Edited(items, id, f) ==> exists y :: y in items && y.id == x.id && y.createdAt == x.createdAt
  {
    var r := Edited(items, id, f);
    forall k | k in Ids(r) ensures k in Ids(items) {
      var x :| x in r && x.id == k;
      var i :| 0 <= i < |r| && r[i] == x;
      assert items[i].id == k;
    }
    forall k | k in Ids(items) ensures k in Ids(r) {
      var x :| x in items && x.id == k;
      var i :| 0 <= i < |items| && items[i] == x;
      assert r[i].id == k;
    }
    forall x | x in r ensures exists y :: y in items && y.id == x.id && y.createdAt == x.createdAt {
      var i :| 0 <= i < |r| && r[i] == x;
      assert items[i] in items;
    }
  }

  /** An edit changes only the edited row, and of it only the form's fields:
      every other row, and the key, creation time and seller of the edited
      one, stay as they were. */
  lemma EditTouchesOnlyFormFields(items: seq<Item>, id: ItemId, f: Fields)
    ensures |Edited(items, id, f)| == |items|
    ensures forall i, fn :: 0 <= i < |items| && (items[i].id != id || fn !in FormFields) ==>
      Get(Edited(items, id, f)[i], fn) == Get(items[i], fn)
    ensures forall i, fn :: 0 <= i < |items| && items[i].id == id && fn in FormFields ==>
      Get(Edited(items, id, f)[i], fn) == Bound(f, fn).value
  {
  }

  /** `item.seller != request.user` is false exactly for the recorded seller;
      a row with no seller refuses everyone. */
  predicate IsSeller(x: Item, user: UserId)
  {
    x.seller == Some(user)
  }

  /** The favourite pairs after `toggle_favorite`. */
  function Toggled(favorites: set<(UserId, ItemId)>, pair: (UserId, ItemId)): (r: set<(UserId, ItemId)>)
    ensures pair in r <==> pair !in favorites
    ensures forall other :: other != pair ==> (other in r <==> other in favorites)
  {
    if pair in favorites then favorites - {pair} else favorites + {pair}
  }

  /** The favourite pairs that survive the deletion of item `id`. */
  function DropItem(favorites: set<(UserId, ItemId)>, id: ItemId): set<(UserId, ItemId)>
  {
    set p | p in favorites && p.1 != id
  }

  /** Two toggles of the same pair restore the favourites. */
  lemma ToggleTwice(favorites: set<(UserId, ItemId)>, pair: (UserId, ItemId))
    ensures Toggled(Toggled(favorites, pair), pair) == favorites
  {
  }

  /** A toggle moves exactly the toggled item in or out of the user's
      favourites list and changes no other user's list. */
  lemma ToggleFavoriteItems(items: seq<Item>, favorites: set<(UserId, ItemId)>, user: UserId, x: Item)
    requires x in items
    ensures var after := Toggled(favorites, (user, x.id));
      && (x in FavoriteItems(items, after, user) <==> x !in FavoriteItems(items, favorites, user))
      && (forall y :: y in items && y.id != x.id ==>
            (y in FavoriteItems(items, after, user) <==> y in FavoriteItems(items, favorites, user)))
      && (forall u :: u != user ==> FavoriteItems(items, after, u) == FavoriteItems(items, favorites, u))
  {
  }

  // ---------------------------------------------------------------------------
  // The store's invariant, piece by piece

  /** Keys are distinct and below the next key; rows are newest first and
      stamped before the current time. */
  ghost predicate CatalogOk(items: seq<Item>, nextId: ItemId, clock: int)
  {
    && DistinctIds(items)
    && NewestFirst(items)
    && (forall x :: x in items ==> x.id < nextId && x.createdAt < clock)
  }

  /** One image list per existing item, each numbered from 0 and within the
      per-item limit. */
  ghost predicate ImagesOk(imgs: map<ItemId, seq<Image>>, ids: set<ItemId>, limit: nat)
  {
    && imgs.Keys == ids
    && (forall id :: id in imgs ==> |imgs[id]| <= limit && NumberedFromZero(imgs[id]))
  }

  /** Favourites and messages refer to existing items only. */
  ghost predicate RefsOk(favorites: set<(UserId, ItemId)>, messages: seq<Message>, ids: set<ItemId>)
  {
    && (forall p :: p in favorites ==> p.1 in ids)
    && (forall m :: m in messages ==> m.item in ids)
  }

  lemma CatalogOkAfterCreate(items: seq<Item>, x: Item, nextId: ItemId, clock: int)
    requires CatalogOk(items, nextId, clock) && x.id == nextId && x.createdAt == clock
    ensures CatalogOk([x] + items, nextId + 1, clock + 1)
    ensures Ids([x] + items) == Ids(items) + {x.id}
  {
    var r := [x] + items;
    assert forall y :: y in r <==> y == x || y in items;
    forall i, j | 0 <= i < j < |r| ensures r[i].id != r[j].id && r[i].createdAt >= r[j].createdAt {
      if i == 0 {
        assert r[j] in items;
      } else {
        assert r[i] == items[i - 1] && r[j] == items[j - 1];
      }
    }
  }

  lemma CatalogOkAfterEdit(items: seq<Item>, id: ItemId, f: Fields, nextId: ItemId, clock: int)
    requires CatalogOk(items, nextId, clock)
    ensures CatalogOk(Edited(items, id, f), nextId, clock)
    ensures Ids(Edited(items, id, f)) == Ids(items)
  {
    EditedKeepsKeysAndOrder(items, id, f);
  }

  lemma CatalogOkAfterDelete(items: seq<Item>, id: ItemId, nextId: ItemId, clock: int)
    requires CatalogOk(items, nextId, clock)
    ensures CatalogOk(Filter(items, (x: Item) => x.id != id), nextId, clock)
    ensures Ids(Filter(items, (x: Item) => x.id != id)) == Ids(items) - {id}
  {
    var keep := (x: Item) => x.id != id;
    var rest := Filter(items, keep);
    FilterKeepsDistinctIds(items, keep);
    FilterKeepsNewestFirst(items, keep);
    forall k | k in Ids(items) - {id} ensures k in Ids(rest) {
      var x :| x in items && x.id == k;
      assert x in rest;
    }
  }

  lemma ImagesOkAfterAdd(imgs: map<ItemId, seq<Image>>, ids: set<ItemId>, limit: nat, id: ItemId, v: seq<Image>)
    requires ImagesOk(imgs, ids, limit) && |v| <= limit && NumberedFromZero(v)
    ensures ImagesOk(imgs[id := v], ids + {id}, limit)
  {
  }

  lemma ImagesOkAfterRemove(imgs: map<ItemId, seq<Image>>, ids: set<ItemId>, limit: nat, id: ItemId)
    requires ImagesOk(imgs, ids, limit)
    ensures ImagesOk(imgs - {id}, ids - {id}, limit)
  {
  }

  lemma RefsOkAfterDelete(favorites: set<(UserId, ItemId)>, messages: seq<Message>, ids: set<ItemId>, id: ItemId)
    requires RefsOk(favorites, messages, ids)
    ensures RefsOk(DropItem(favorites, id), Filter(messages, (m: Message) => m.item != id), ids - {id})
  {
  }

  class Store {
    var items: seq<Item>
    var images: map<ItemId, seq<Image>>
    var outcomes: map<ItemId, seq<Image>>
    var favorites: set<(UserId, ItemId)>
    var messages: seq<Message>
    /** The next primary key to hand out. */
    var nextId: ItemId
    /** The time `auto_now_add` stamps on the next row; strictly increasing. */
    var clock: int

    ghost predicate Valid()
      reads this
    {
      && CatalogOk(items, nextId, clock)
      && ImagesOk(images, Ids(items), MaxProductImages)
      && ImagesOk(outcomes, Ids(items), MaxOutcomeImages)
      && RefsOk(favorites, messages, Ids(items))
    }

    constructor ()
      ensures Valid()
      ensures items == [] && images == map[] && outcomes == map[]
      ensures favorites == {} && messages == []
    {
      items, images, outcomes := [], map[], map[];
      favorites, messages := {}, [];
      nextId, clock := 1, 0;
    }

    // -------------------------------------------------------------------------
    // Row operations of the ORM

    /** Saves a new row (the next key, the current time, first place in the
        newest-first catalog) together with its product and outcome image
        rows. */
    method Create(seller: Option<UserId>, f: Fields, imgs: seq<Image>, outs: seq<Image>) returns (id: ItemId)
      requires Valid()
      requires |imgs| <= MaxProductImages && NumberedFromZero(imgs)
      requires |outs| <= MaxOutcomeImages && NumberedFromZero(outs)
      modifies this
      ensures Valid()
      ensures id == old(nextId) && id !in old(Ids(items))
      ensures items == [NewItem(id, old(clock), seller, f)] + old(items)
      ensures Ids(items) == old(Ids(items)) + {id}
      ensures images == old(images)[id := imgs] && outcomes == old(outcomes)[id := outs]
      ensures favorites == old(favorites) && messages == old(messages)
    {
      id := nextId;
      var x := NewItem(id, clock, seller, f);
      CatalogOkAfterCreate(items, x, nextId, clock);
      ImagesOkAfterAdd(images, Ids(items), MaxProductImages, id, imgs);
      ImagesOkAfterAdd(outcomes, Ids(items), MaxOutcomeImages, id, outs);
      items := [x] + items;
      images := images[id := imgs];
      outcomes := outcomes[id := outs];
      nextId := nextId + 1;
      clock := clock + 1;
    }

    /** `form.save()` / `serializer.save()` on the row with key `id`. */
    method Update(id: ItemId, f: Fields)
      requires Valid()
      modifies this
      ensures Valid()
      ensures items == Edited(old(items), id, f)
      ensures images == old(images) && outcomes == old(outcomes)
      ensures favorites == old(favorites) && messages == old(messages)
      ensures nextId == old(nextId) && clock == old(clock)
    {
      CatalogOkAfterEdit(items, id, f, nextId, clock);
      items := Edited(items, id, f);
    }

    /** `item.delete()`: the row goes, and with it (by cascade) its product
        images, outcome images, favourites and messages. */
    method Delete(id: ItemId)
      requires Valid()
      modifies this
      ensures Valid()
      ensures items == Filter(old(items), (x: Item) => x.id != id)
      ensures Ids(items) == old(Ids(items)) - {id}
      ensures images == old(images) - {id} && outcomes == old(outcomes) - {id}
      ensures favorites == DropItem(old(favorites), id)
      ensures messages == Filter(old(messages), (m: Message) => m.item != id)
      ensures nextId == old(nextId) && clock == old(clock)
    {
      var rest := Filter(items, (x: Item) => x.id != id);
      CatalogOkAfterDelete(items, id, nextId, clock);
      ImagesOkAfterRemove(images, Ids(items), MaxProductImages, id);
      ImagesOkAfterRemove(outcomes, Ids(items), MaxOutcomeImages, id);
      RefsOkAfterDelete(favorites, messages, Ids(items), id);
      items := rest;
      images := images - {id};
      outcomes := outcomes - {id};
      favorites := DropItem(favorites, id);
      messages := Filter(messages, (m: Message) => m.item != id);
    }

    // -------------------------------------------------------------------------
    // Views

    /** `post_item`: a valid POST creates one row sold by the user, with the
        first three product uploads and the first five outcome uploads as its
        images, numbered from 0; a GET or an invalid form changes nothing. */
    method PostItem(user: UserId, isPost: bool, f: Fields, productUploads: seq<Upload>, outcomeUploads: seq<Upload>)
      returns (outcome: Outcome, created: Option<ItemId>)
      requires Valid()
      modifies this
      ensures Valid()
      ensures !(isPost && IsValid(f)) ==> outcome == ShowPage && created == None && unchanged(this)
      ensures isPost && IsValid(f) ==>
        var id := old(nextId);
        && outcome == Redirect && created == Some(id)
        && id !in old(Ids(items))
        && items == [NewItem(id, old(clock), Some(user), f)] + old(items)
        && id in images && images == old(images)[id := images[id]]
        && |images[id]| == Min(|productUploads|, MaxProductImages)
        && (forall i :: 0 <= i < |images[id]| ==> images[id][i] == Image(productUploads[i], i))
        && id in outcomes && outcomes == old(outcomes)[id := outcomes[id]]
        && |outcomes[id]| == Min(|outcomeUploads|, MaxOutcomeImages)
        && (forall i :: 0 <= i < |outcomes[id]| ==> outcomes[id][i] == Image(outcomeUploads[i], i))
        && favorites == old(favorites) && messages == old(messages)
    {
      if !(isPost && IsValid(f)) {
        return ShowPage, None;
      }
      var imgs := NumberUploads(productUploads, MaxProductImages);
      var outs := NumberUploads(outcomeUploads, MaxOutcomeImages);
      var id := Create(Some(user), f, imgs, outs);
      return Redirect, Some(id);
    }

    /** `edit_item`: unknown key, not found; a user other than the recorded
        seller (every user, when none is recorded), refused with nothing
        changed; the seller's valid POST rewrites exactly the form's fields
        of that row; the seller's GET or invalid POST changes nothing. */
    method EditItem(user: UserId, id: ItemId, isPost: bool, f: Fields) returns (outcome: Outcome)
      requires Valid()
      modifies this
      ensures Valid()
      ensures id !in old(Ids(items)) ==> outcome == NotFound && unchanged(this)
      ensures id in old(Ids(items)) && !IsSeller(FindItem(old(items), id).value, user) ==>
        outcome == PermissionDenied && unchanged(this)
      ensures id in old(Ids(items)) && IsSeller(FindItem(old(items), id).value, user) && isPost && IsValid(f) ==>
        && outcome == Redirect
        && items == Edited(old(items), id, f)
        && images == old(images) && outcomes == old(outcomes)
        && favorites == old(favorites) && messages == old(messages)
      ensures id in old(Ids(items)) && IsSeller(FindItem(old(items), id).value, user) && !(isPost && IsValid(f)) ==>
        outcome == ShowPage && unchanged(this)
    {
      var found := FindItem(items, id);
      if found.None? {
        return NotFound;
      }
      if !IsSeller(found.value, user) {
        return PermissionDenied;
      }
      if isPost && IsValid(f) {
        Update(id, f);
        return Redirect;
      }
      return ShowPage;
    }

    /** `delete_item`: unknown key, not found; anyone but the recorded seller,
        refused with nothing changed; the seller's POST removes the row and
        everything that refers to it; the seller's GET shows the
        confirmation and changes nothing. */
    method DeleteItem(user: UserId, id: ItemId, isPost: bool) returns (outcome: Outcome)
      requires Valid()
      modifies this
      ensures Valid()
      ensures id !in old(Ids(items)) ==> outcome == NotFound && unchanged(this)
      ensures id in old(Ids(items)) && !IsSeller(FindItem(old(items), id).value, user) ==>
        outcome == PermissionDenied && unchanged(this)
      ensures id in old(Ids(items)) && IsSeller(FindItem(old(items), id).value, user) && isPost ==>
        && outcome == Redirect
        && items == Filter(old(items), (x: Item) => x.id != id)
        && Ids(items) == old(Ids(items)) - {id}
        && id !in images && id !in outcomes
        && images == old(images) - {id} && outcomes == old(outcomes) - {id}
        && (forall p :: p in favorites <==> p in old(favorites) && p.1 != id)
        && messages == Filter(old(messages), (m: Message) => m.item != id)
      ensures id in old(Ids(items)) && IsSeller(FindItem(old(items), id).value, user) && !isPost ==>
        outcome == ShowPage && unchanged(this)
    {
      var found := FindItem(items, id);
      if found.None? {
        return NotFound;
      }
      if !IsSeller(found.value, user) {
        return PermissionDenied;
      }
      if isPost {
        Delete(id);
        return Redirect;
      }
      return ShowPage;
    }

    /** `message_seller`: a POST whose `content` is present and non-empty
        appends one message from the user about the item; otherwise nothing
        changes and the item's messages are shown. */
    method MessageSeller(user: UserId, id: ItemId, isPost: bool, content: Option<string>)
      returns (outcome: Outcome, thread: seq<Message>)
      requires Valid()
      modifies this
      ensures Valid()
      ensures id !in old(Ids(items)) ==> outcome == NotFound && thread == [] && unchanged(this)
      ensures id in old(Ids(items)) && isPost && content.Some? && content.value != "" ==>
        && outcome == Redirect && thread == []
        && messages == old(messages) + [Message(id, user, content.value)]
        && items == old(items) && images == old(images) && outcomes == old(outcomes)
        && favorites == old(favorites)
      ensures id in old(Ids(items)) && !(isPost && content.Some? && content.value != "") ==>
        && outcome == ShowPage && unchanged(this)
        && (forall m :: m in thread <==> m in messages && m.item == id)
        && IsSubseq(thread, messages)
        && (forall m :: multiset(thread)[m] == if m.item == id then multiset(messages)[m] else 0)
    {
      var found := FindItem(items, id);
      if found.None? {
        return NotFound, [];
      }
      if isPost && content.Some? && content.value != "" {
        messages := messages + [Message(id, user, content.value)];
        return Redirect, [];
      }
      thread := Filter(messages, (m: Message) => m.item == id);
      return ShowPage, thread;
    }

    /** `toggle_favorite`: flips whether (user, item) is a favourite and
        leaves every other pair, and everything else, as it was. */
    method ToggleFavorite(user: UserId, id: ItemId) returns (outcome: Outcome, added: bool)
      requires Valid()
      modifies this
      ensures Valid()
      ensures id !in old(Ids(items)) ==> outcome == NotFound && !added && unchanged(this)
      ensures id in old(Ids(items)) ==>
        && outcome == Redirect
        && (added <==> (user, id) !in old(favorites))
        && favorites == Toggled(old(favorites), (user, id))
        && items == old(items) && images == old(images) && outcomes == old(outcomes)
        && messages == old(messages)
    {
      var found := FindItem(items, id);
      if found.None? {
        return NotFound, false;
      }
      added := (user, id) !in favorites;
      favorites := Toggled(favorites, (user, id));
      outcome := Redirect;
    }
  }
}
