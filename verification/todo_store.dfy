/**
 * The in-memory todo service of backend/index.js: an ordered list of items and an
 * id counter, changed only by the route handlers. Each handler is a pure transition
 * from the current state and an already-parsed request to the next state and the
 * response it sends. HTTP transport and JSON parsing are not modelled.
 */
module TodoStore {
  import opened Wrappers

  /** `name` is whatever the request body carried, including nothing at all. */
  datatype Item = Item(id: nat, name: Option<string>)

  /** The module-level `items` array and `currentId` counter. */
  datatype State = State(items: seq<Item>, currentId: nat)

  datatype Body =
    | Message(text: string)
    | OneItem(item: Item)
    | ItemList(list: seq<Item>)
    | NoContent

  datatype Response = Response(status: nat, body: Body)

  datatype Request =
    | Login(username: Option<string>, password: Option<string>)
    | ListItems
    | CreateItem(name: Option<string>)
    | UpdateItem(id: nat, newName: Option<string>)
    | DeleteItem(id: nat)

  /** The state the server starts in: no items, first id 1. */
  const Initial := State([], 1)

  const ValidUsername := "test"
  const ValidPassword := "test123"

  predicate HasId(items: seq<Item>, id: nat) {
    exists k :: 0 <= k < |items| && items[k].id == id
  }

  /** Ids rise strictly along the list, so no two items share one. */
  predicate StrictlyIncreasing(items: seq<Item>) {
    forall i, j :: 0 <= i < j < |items| ==> items[i].id < items[j].id
  }

  /** What every handler maintains: ordered ids, each at least 1 and below the next id to be issued (itself at least 1). */
  predicate Inv(s: State) {
    && StrictlyIncreasing(s.items)
    && 1 <= s.currentId
    && forall k :: 0 <= k < |s.items| ==> 1 <= s.items[k].id < s.currentId
  }

  /** POST /login: one hard-coded pair is accepted, compared with strict equality. */
  function HandleLogin(s: State, username: Option<string>, password: Option<string>): (r: (State, Response))
    ensures r.0 == s
    ensures r.1.status == 200 ==> r.1.body == Message("Login successful")
    ensures r.1.status == 200 || r.1 == Response(401, Message("Invalid credentials"))
    ensures r.1.status == 200 <==> username == Some("test") && password == Some("test123")
  {
    if username == Some(ValidUsername) && password == Some(ValidPassword) then
      (s, Response(200, Message("Login successful")))
    else
      (s, Response(401, Message("Invalid credentials")))
  }

  /** GET /items. */
  function HandleList(s: State): (r: (State, Response))
    ensures r.0 == s
    ensures r.1.status == 200 && r.1.body.ItemList? && r.1.body.list == s.items
  {
    (s, Response(200, ItemList(s.items)))
  }

  /** POST /items: the body's name is stored as sent; the counter is post-incremented. */
  function HandleCreate(s: State, name: Option<string>): (r: (State, Response))
    ensures |r.0.items| == |s.items| + 1
    ensures r.0.items[..|s.items|] == s.items
    ensures r.1.status == 201 && r.1.body.OneItem?
    ensures r.0.items[|s.items|] == r.1.body.item
    ensures r.1.body.item.id == s.currentId && r.1.body.item.name == name
    ensures r.0.currentId == s.currentId + 1
  {
    var newItem := Item(s.currentId, name);
    (State(s.items + [newItem], s.currentId + 1), Response(201, OneItem(newItem)))
  }

  /** The lookup PUT performs: the position of the first item carrying `id`, if any. */
  function FindIndex(items: seq<Item>, id: nat): (r: Option<nat>)
    ensures r.Some? ==> r.value < |items| && items[r.value].id == id
    ensures r.Some? ==> forall k :: 0 <= k < r.value ==> items[k].id != id
    ensures r.None? <==> !HasId(items, id)
  {
    if |items| == 0 then None
    else if items[0].id == id then Some(0)
    else match FindIndex(items[1..], id)
      case None => None
      case Some(i) => Some(i + 1)
  }

  /** PUT /items/:id: renames the found item in place and echoes it, or answers 404. */
  function HandleUpdate(s: State, id: nat, name: Option<string>): (r: (State, Response))
    ensures !HasId(s.items, id) <==> r.1.status == 404
    ensures !HasId(s.items, id) ==> r == (s, Response(404, Message("Item not found")))
    ensures HasId(s.items, id) ==>
      && r.0.currentId == s.currentId
      && |r.0.items| == |s.items|
      && r.1 == Response(200, OneItem(Item(id, name)))
      && exists k :: 0 <= k < |s.items| && s.items[k].id == id
           && r.0.items == s.items[k := Item(id, name)]
  {
    match FindIndex(s.items, id)
    case None => (s, Response(404, Message("Item not found")))
    case Some(k) =>
      var updated := Item(id, name);
      (State(s.items[k := updated], s.currentId), Response(200, OneItem(updated)))
  }

  /** The list DELETE leaves behind: every item whose id differs from `id`, in the original order. */
  function Without(items: seq<Item>, id: nat): (r: seq<Item>)
    ensures |r| <= |items|
    ensures !HasId(r, id)
    ensures forall x :: x in r ==> x in items
    ensures forall x :: x in items && x.id != id ==> x in r
  {
    if |items| == 0 then []
    else if items[0].id == id then Without(items[1..], id)
    else [items[0]] + Without(items[1..], id)
  }

  /** DELETE /items/:id: always 204, whether or not the id was present. */
  function HandleDelete(s: State, id: nat): (r: (State, Response))
    ensures r.0.currentId == s.currentId
    ensures r.1 == Response(204, NoContent)
    ensures !HasId(r.0.items, id)
    ensures forall x :: x in s.items && x.id != id <==> x in r.0.items
  {
    (State(Without(s.items, id), s.currentId), Response(204, NoContent))
  }

  /** The express router: one request, one transition. */
  function Handle(s: State, req: Request): (State, Response) {
    match req
    case Login(u, p) => HandleLogin(s, u, p)
    case ListItems => HandleList(s)
    case CreateItem(name) => HandleCreate(s, name)
    case UpdateItem(id, name) => HandleUpdate(s, id, name)
    case DeleteItem(id) => HandleDelete(s, id)
  }

  /** The state after serving `reqs` one after another. */
  function Run(s: State, reqs: seq<Request>): State
    decreases |reqs|
  {
    if |reqs| == 0 then s else Run(Handle(s, reqs[0]).0, reqs[1..])
  }

  lemma InitialInv()
    ensures Inv(Initial)
    ensures Initial.items == [] && Initial.currentId == 1
  {
  }

  /** An item below every id of an increasing list can be put in front of it. */
  lemma PrependIncreasing(x: Item, rest: seq<Item>)
    requires StrictlyIncreasing(rest)
    requires forall j :: 0 <= j < |rest| ==> x.id < rest[j].id
    ensures StrictlyIncreasing([x] + rest)
  {
    var l := [x] + rest;
    forall i, j | 0 <= i < j < |l|
      ensures l[i].id < l[j].id
    {
      assert l[j] == rest[j - 1];
      if i > 0 {
        assert l[i] == rest[i - 1];
      }
    }
  }

  /** Filtering keeps the survivors in their original relative order. */
  lemma {:induction false} WithoutKeepsOrder(items: seq<Item>, id: nat)
    requires StrictlyIncreasing(items)
    ensures StrictlyIncreasing(Without(items, id))
  {
    if |items| > 0 {
      var tail := items[1..];
      assert StrictlyIncreasing(tail) by {
        forall i, j | 0 <= i < j < |tail|
          ensures tail[i].id < tail[j].id
        {
          assert tail[i] == items[i + 1] && tail[j] == items[j + 1];
        }
      }
      WithoutKeepsOrder(tail, id);
      var rest := Without(tail, id);
      if items[0].id != id {
        forall j | 0 <= j < |rest|
          ensures items[0].id < rest[j].id
        {
          assert rest[j] in tail;
          var k :| 0 <= k < |tail| && tail[k] == rest[j];
          assert items[k + 1] == rest[j];
        }
        PrependIncreasing(items[0], rest);
      }
    }
  }

  /** Deleting an absent id changes nothing. */
  lemma {:induction false} WithoutAbsent(items: seq<Item>, id: nat)
    requires !HasId(items, id)
    ensures Without(items, id) == items
  {
    if |items| > 0 {
      assert items[0].id != id;
      WithoutAbsent(items[1..], id);
      assert items == [items[0]] + items[1..];
    }
  }

  lemma DropAtShift(items: seq<Item>, k: nat)
    requires 0 < k < |items|
    ensures items[..k] + items[k + 1..] == [items[0]] + (items[1..][..k - 1] + items[1..][k..])
  {
    assert items[1..][..k - 1] == items[1..k];
    assert items[1..][k..] == items[k + 1..];
    assert items[..k] == [items[0]] + items[1..k];
  }

  /** With unique ids, deleting a present id removes exactly its one item. */
  lemma {:induction false} WithoutPresent(items: seq<Item>, id: nat, k: nat)
    requires StrictlyIncreasing(items)
    requires k < |items| && items[k].id == id
    ensures Without(items, id) == items[..k] + items[k + 1..]
  {
    var tail := items[1..];
    assert StrictlyIncreasing(tail);
    if k == 0 {
      assert !HasId(tail, id) by {
        forall j | 0 <= j < |tail|
          ensures tail[j].id != id
        {
          assert items[0].id < items[j + 1].id;
        }
      }
      WithoutAbsent(tail, id);
    } else {
      assert items[0].id != id by {
        assert items[0].id < items[k].id;
      }
      WithoutPresent(tail, id, k - 1);
      DropAtShift(items, k);
    }
  }

  /** DELETE removes exactly the item with that id, or nothing when there is none. */
  lemma DeleteRemovesExactly(s: State, id: nat)
    requires Inv(s)
    ensures var next := HandleDelete(s, id).0;
      match FindIndex(s.items, id)
      case None => next == s
      case Some(k) => next.items == s.items[..k] + s.items[k + 1..] && next.currentId == s.currentId
  {
    match FindIndex(s.items, id)
    case None => WithoutAbsent(s.items, id);
    case Some(k) => WithoutPresent(s.items, id, k);
  }

  /** Deleting twice is the same as deleting once. */
  lemma DeleteIdempotent(s: State, id: nat)
    ensures HandleDelete(HandleDelete(s, id).0, id) == HandleDelete(s, id)
  {
    WithoutAbsent(Without(s.items, id), id);
  }

  /** PUT on a present id renames that one item: every other item, every id and the counter stay put. */
  lemma UpdateTouchesOnlyTarget(s: State, id: nat, name: Option<string>)
    requires Inv(s)
    ensures var next := HandleUpdate(s, id, name).0;
      && next.currentId == s.currentId
      && |next.items| == |s.items|
      && (forall j :: 0 <= j < |s.items| ==> next.items[j].id == s.items[j].id)
      && (forall j :: 0 <= j < |s.items| && s.items[j].id != id ==> next.items[j] == s.items[j])
      && (forall j :: 0 <= j < |s.items| && s.items[j].id == id ==> next.items[j].name == name)
  {
  }

  /** Appending a fresh item under the counter keeps the invariant. */
  lemma CreatePreservesInv(s: State, name: Option<string>)
    requires Inv(s)
    ensures Inv(HandleCreate(s, name).0)
  {
    var next := HandleCreate(s, name).0;
    var x := Item(s.currentId, name);
    assert next.items == s.items + [x];
    forall i, j | 0 <= i < j < |next.items|
      ensures next.items[i].id < next.items[j].id
    {
      assert next.items[i] == s.items[i];
      if j < |s.items| {
        assert next.items[j] == s.items[j];
      }
    }
  }

  /** Renaming an item leaves every id in place, so the invariant survives. */
  lemma UpdatePreservesInv(s: State, id: nat, name: Option<string>)
    requires Inv(s)
    ensures Inv(HandleUpdate(s, id, name).0)
  {
    UpdateTouchesOnlyTarget(s, id, name);
    var next := HandleUpdate(s, id, name).0;
    forall i, j | 0 <= i < j < |next.items|
      ensures next.items[i].id < next.items[j].id
    {
      assert next.items[i].id == s.items[i].id && next.items[j].id == s.items[j].id;
    }
  }

  /** Dropping items keeps the survivors in order and under the counter. */
  lemma DeletePreservesInv(s: State, id: nat)
    requires Inv(s)
    ensures Inv(HandleDelete(s, id).0)
  {
    WithoutKeepsOrder(s.items, id);
    var next := HandleDelete(s, id).0;
    forall k | 0 <= k < |next.items|
      ensures 1 <= next.items[k].id < next.currentId
    {
      assert next.items[k] in s.items;
    }
  }

  /** Every handler keeps the invariant and never moves the counter backwards. */
  lemma HandlePreservesInv(s: State, req: Request)
    requires Inv(s)
    ensures Inv(Handle(s, req).0)
    ensures Handle(s, req).0.currentId >= s.currentId
  {
    match req
    case Login(_, _) =>
    case ListItems =>
    case CreateItem(name) => CreatePreservesInv(s, name);
    case UpdateItem(id, name) => UpdatePreservesInv(s, id, name);
    case DeleteItem(id) => DeletePreservesInv(s, id);
  }

  lemma {:induction false} RunPreservesInv(s: State, reqs: seq<Request>)
    requires Inv(s)
    ensures Inv(Run(s, reqs))
    ensures Run(s, reqs).currentId >= s.currentId
    decreases |reqs|
  {
    if |reqs| > 0 {
      HandlePreservesInv(s, reqs[0]);
      RunPreservesInv(Handle(s, reqs[0]).0, reqs[1..]);
    }
  }

  /** Every state the server can reach from start-up satisfies the invariant. */
  lemma ReachableInv(reqs: seq<Request>)
    ensures Inv(Run(Initial, reqs))
    ensures Run(Initial, reqs).currentId >= 1
  {
    RunPreservesInv(Initial, reqs);
  }

  /** An id below the counter that is absent now stays absent after any one request. */
  lemma StepKeepsFreedId(s: State, req: Request, id: nat)
    requires id < s.currentId && !HasId(s.items, id)
    ensures id < Handle(s, req).0.currentId && !HasId(Handle(s, req).0.items, id)
  {
    match req
    case Login(_, _) =>
    case ListItems =>
    case CreateItem(name) =>
    case UpdateItem(uid, name) =>
    case DeleteItem(_) =>
  }

  /** A deleted id is never issued again: once freed, it is absent from every later state. */
  lemma {:induction false} FreedIdNeverReissued(s: State, reqs: seq<Request>, id: nat)
    requires id < s.currentId && !HasId(s.items, id)
    ensures !HasId(Run(s, reqs).items, id)
    decreases |reqs|
  {
    if |reqs| > 0 {
      StepKeepsFreedId(s, reqs[0], id);
      FreedIdNeverReissued(Handle(s, reqs[0]).0, reqs[1..], id);
    }
  }

  /** One POST /items request per name, in order. */
  function CreateRequests(names: seq<Option<string>>): seq<Request>
  {
    seq(|names|, i requires 0 <= i < |names| => CreateItem(names[i]))
  }

  /** Creates followed by GET list the new items after the old ones, in request order, with consecutive ids. */
  lemma {:induction false} CreatesListInOrder(s: State, names: seq<Option<string>>)
    ensures Run(s, CreateRequests(names)).currentId == s.currentId + |names|
    ensures HandleList(Run(s, CreateRequests(names))).1.body.list
      == s.items + seq(|names|, i requires 0 <= i < |names| => Item(s.currentId + i, names[i]))
    decreases |names|
  {
    var reqs := CreateRequests(names);
    if |names| > 0 {
      var next := HandleCreate(s, names[0]).0;
      assert CreateRequests(names)[1..] == CreateRequests(names[1..]);
      CreatesListInOrder(next, names[1..]);
      var tail := seq(|names| - 1, i requires 0 <= i < |names| - 1 => Item(next.currentId + i, names[1..][i]));
      var all := seq(|names|, i requires 0 <= i < |names| => Item(s.currentId + i, names[i]));
      assert all == [Item(s.currentId, names[0])] + tail;
    } else {
      assert reqs == [];
    }
  }
}
