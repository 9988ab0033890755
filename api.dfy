/**
  The two REST views of api/views.py over the same store: `goods_list`
  (GET lists, POST creates) and `goods_detail` (GET, PUT, DELETE one row).
  Whether `GoodsSerializer` accepts a payload is passed in as `payloadValid`;
  the payload itself is the record of writable fields.
 */
module Api {
  import opened Wrappers
  import opened Goods
  import opened Forms
  import opened QuerySets
  import opened Catalog
  import opened Marketplace

  datatype Status = Ok200 | Created201 | NoContent204 | BadRequest400 | NotFound404

  /** A `Response` with a status and the serialized rows (empty for none),
      or no response at all, when the view falls off its end. */
  datatype Reply = Response(status: Status, data: seq<Item>) | NoResponse

  datatype ListVerb = ListGet | ListPost
  datatype DetailVerb = DetailGet | DetailPut | DetailDelete

  /** `goods_list`: GET returns the whole catalog in its order; a POST the
      serializer accepts creates exactly one row (with no seller) and answers
      201 with it; a POST it rejects creates nothing and returns nothing. */
  method GoodsList(store: Store, verb: ListVerb, payload: Fields, payloadValid: bool) returns (reply: Reply)
    requires store.Valid()
    modifies store
    ensures store.Valid()
    ensures verb == ListGet ==> reply == Response(Ok200, store.items) && unchanged(store)
    ensures verb == ListPost && payloadValid ==>
      var created := NewItem(old(store.nextId), old(store.clock), None, payload);
      && reply == Response(Created201, [created])
      && created.id !in old(Ids(store.items))
      && store.items == [created] + old(store.items)
      && store.images == old(store.images)[created.id := []]
      && store.outcomes == old(store.outcomes)[created.id := []]
      && store.favorites == old(store.favorites) && store.messages == old(store.messages)
    ensures verb == ListPost && !payloadValid ==> reply == NoResponse && unchanged(store)
  {
    match verb
    case ListGet =>
      reply := Response(Ok200, store.items);
    case ListPost =>
      if payloadValid {
        var id := store.Create(None, payload, [], []);
        reply := Response(Created201, [store.items[0]]);
      } else {
        reply := NoResponse;
      }
  }

  /** `goods_detail`: an unknown key answers 404 to every verb and changes
      nothing; GET answers the row; an accepted PUT rewrites that row's
      fields only and answers it, a rejected PUT answers 400 and changes
      nothing; DELETE removes the row and what refers to it and answers 204. */
  method GoodsDetail(store: Store, verb: DetailVerb, id: ItemId, payload: Fields, payloadValid: bool) returns (reply: Reply)
    requires store.Valid()
    modifies store
    ensures store.Valid()
    ensures id !in old(Ids(store.items)) ==> reply == Response(NotFound404, []) && unchanged(store)
    ensures id in old(Ids(store.items)) && verb == DetailGet ==>
      reply == Response(Ok200, [FindItem(old(store.items), id).value]) && unchanged(store)
    ensures id in old(Ids(store.items)) && verb == DetailPut && payloadValid ==>
      && store.items == Edited(old(store.items), id, payload)
      && reply == Response(Ok200, [Save(FindItem(old(store.items), id).value, payload)])
      && store.images == old(store.images) && store.outcomes == old(store.outcomes)
      && store.favorites == old(store.favorites) && store.messages == old(store.messages)
    ensures id in old(Ids(store.items)) && verb == DetailPut && !payloadValid ==>
      reply == Response(BadRequest400, []) && unchanged(store)
    ensures id in old(Ids(store.items)) && verb == DetailDelete ==>
      && reply == Response(NoContent204, [])
      && store.items == Filter(old(store.items), (x: Item) => x.id != id)
      && Ids(store.items) == old(Ids(store.items)) - {id}
      && store.images == old(store.images) - {id} && store.outcomes == old(store.outcomes) - {id}
      && store.favorites == DropItem(old(store.favorites), id)
      && store.messages == Filter(old(store.messages), (m: Message) => m.item != id)
  {
    var found := FindItem(store.items, id);
    if found.None? {
      return Response(NotFound404, []);
    }
    match verb
    case DetailGet =>
      reply := Response(Ok200, [found.value]);
    case DetailPut =>
      if payloadValid {
        store.Update(id, payload);
        reply := Response(Ok200, [Save(found.value, payload)]);
      } else {
        reply := Response(BadRequest400, []);
      }
    case DetailDelete =>
      store.Delete(id);
      reply := Response(NoContent204, []);
  }
}
