/** The document store: one table per collection, and the database that holds them. */
module Store {
  import opened Wrappers
  import opened Schemas
  import opened JsArray

  /** The keys of `rows` below `n`, in ascending order. */
  function IdsBelow<T>(rows: map<Id, T>, n: nat): (ids: seq<Id>)
    ensures forall i :: 0 <= i < |ids| ==> ids[i] in rows && ids[i] < n
    ensures forall id :: id in rows && id < n ==> id in ids
    ensures forall i, j :: 0 <= i < j < |ids| ==> ids[i] < ids[j]
  {
    if n == 0 then [] else IdsBelow(rows, n - 1) + (if n - 1 in rows then [n - 1] else [])
  }

  /** Documents listed with strictly increasing ids. */
  predicate Ascending<T>(docs: seq<(Id, T)>) {
    forall i, j :: 0 <= i < j < |docs| ==> docs[i].0 < docs[j].0
  }

  /** In an ascending listing, the first id is below every later one. */
  lemma HeadBelowTail<T>(docs: seq<(Id, T)>)
    requires Ascending(docs) && docs != []
    ensures forall e :: e in docs[1..] ==> docs[0].0 < e.0
  {
    forall e | e in docs[1..] ensures docs[0].0 < e.0 {
      var k :| 0 <= k < |docs[1..]| && docs[1..][k] == e;
      assert docs[k + 1] == e;
    }
  }

  /** The documents of `docs` whose body satisfies `keep`, in their original order. */
  function Where<T>(docs: seq<(Id, T)>, keep: T -> bool): (r: seq<(Id, T)>)
    ensures |r| <= |docs|
    ensures forall e :: e in r ==> e in docs && keep(e.1)
    ensures forall e :: e in docs && keep(e.1) ==> e in r
    ensures Ascending(docs) ==> Ascending(r)
  {
    if docs == [] then []
    else
      var rest := Where(docs[1..], keep);
      if keep(docs[0].1) then
        if Ascending(docs) then HeadBelowTail(docs); [docs[0]] + rest else [docs[0]] + rest
      else rest
  }

  /** One collection. Mongo assigns each inserted document a fresh id; `next` is the
      id the next insert receives, so listing ids in ascending order lists documents
      in insertion (natural) order. */
  datatype Table<T> = Table(rows: map<Id, T>, next: Id) {

    ghost predicate Valid() {
      forall id :: id in rows ==> id < next
    }

    /** The documents in natural order, as `find({})` returns them. */
    function Docs(): (docs: seq<(Id, T)>)
      ensures Ascending(docs)
      ensures forall i :: 0 <= i < |docs| ==> docs[i].0 in rows && docs[i].1 == rows[docs[i].0]
      ensures Valid() ==> forall id :: id in rows ==> (id, rows[id]) in docs
    {
      var ids := IdsBelow(rows, next);
      var docs := seq(|ids|, i requires 0 <= i < |ids| => (ids[i], rows[ids[i]]));
      assert forall id :: id in rows && id < next ==> (id, rows[id]) in docs by {
        forall id | id in rows && id < next ensures (id, rows[id]) in docs {
          var i :| 0 <= i < |ids| && ids[i] == id;
          assert docs[i] == (id, rows[id]);
        }
      }
      docs
    }

    /** `create`: store `t` under the next fresh id. */
    function Insert(t: T): (r: Table<T>)
      ensures next !in rows ==> r.rows.Keys == rows.Keys + {next}
      ensures Valid() ==> r.Valid() && next !in rows
      ensures next in r.rows && r.rows[next] == t && r.next == next + 1
      ensures forall id :: id in rows && id != next ==> id in r.rows && r.rows[id] == rows[id]
    {
      Table(rows[next := t], next + 1)
    }

    /** `save` / `findByIdAndUpdate` on an existing document. */
    function Put(id: Id, t: T): (r: Table<T>)
      requires id in rows
      ensures r.rows.Keys == rows.Keys
      ensures Valid() ==> r.Valid()
      ensures id in r.rows && r.rows[id] == t && r.next == next
      ensures forall k :: k in rows && k != id ==> k in r.rows && r.rows[k] == rows[k]
    {
      Table(rows[id := t], next)
    }

    /** `findByIdAndDelete`. */
    function Remove(id: Id): (r: Table<T>)
      ensures r.rows.Keys == rows.Keys - {id}
      ensures Valid() ==> r.Valid()
      ensures r.next == next
      ensures forall k :: k in rows && k != id ==> k in r.rows && r.rows[k] == rows[k]
    {
      Table(rows - {id}, next)
    }
  }

  /** Writing a key twice, the second time with its stored value, leaves the map as it was. */
  lemma PutTwice<K, V>(m: map<K, V>, k: K, v: V, w: V)
    requires k in m && m[k] == w
    ensures m[k := v][k := w] == m
  {
  }

  /** Adding a fresh key and removing it again leaves the map as it was. */
  lemma InsertThenRemove<K, V>(m: map<K, V>, k: K, v: V)
    requires k !in m
    ensures m[k := v] - {k} == m
  {
  }

  function EmptyTable<T>(): (t: Table<T>)
    ensures t.Valid() && t.rows == map[]
  {
    Table(map[], 0)
  }

  /** A menu lists only ids the meal collection has handed out, each at most once. */
  ghost predicate MenuBelow(menu: seq<Id>, next: Id) {
    (forall i :: 0 <= i < |menu| ==> menu[i] < next) && Distinct(menu)
  }

  ghost predicate MenusListMeals(restaurants: map<Id, Restaurant>, next: Id) {
    forall rid :: rid in restaurants ==> MenuBelow(restaurants[rid].menu, next)
  }

  /** Handing out one more meal id keeps every menu well formed. */
  lemma MenusAfterMealInsert(restaurants: map<Id, Restaurant>, next: Id)
    requires MenusListMeals(restaurants, next)
    ensures MenusListMeals(restaurants, next + 1)
  {
    forall rid | rid in restaurants ensures MenuBelow(restaurants[rid].menu, next + 1) {
      assert MenuBelow(restaurants[rid].menu, next);
    }
  }

  /** The id just handed out is in no menu yet, and pushing it keeps the menu well formed. */
  lemma MenuPush(menu: seq<Id>, next: Id)
    requires MenuBelow(menu, next)
    ensures next !in menu
    ensures MenuBelow(menu + [next], next + 1)
  {
    assert forall i :: 0 <= i < |menu| ==> menu[i] != next;
    var m := menu + [next];
    assert forall i :: 0 <= i < |menu| ==> m[i] == menu[i];
  }

  /** Splicing a menu keeps it well formed. */
  lemma MenuSplice(menu: seq<Id>, next: Id, start: int)
    requires MenuBelow(menu, next)
    ensures MenuBelow(Splice1(menu, start), next)
  {
    SpliceKeeps(menu, start);
    var r := Splice1(menu, start);
    forall i | 0 <= i < |r| ensures r[i] < next {
      assert r[i] in r;
      var j :| 0 <= j < |menu| && menu[j] == r[i];
    }
  }

  /** The three collections the services share. */
  class Database {
    var users: Table<User>
    var restaurants: Table<Restaurant>
    var meals: Table<Meal>

    ghost predicate Valid()
      reads this
    {
      && users.Valid() && restaurants.Valid() && meals.Valid()
      && UniqueEmails(users.rows)
      && MenusListMeals(restaurants.rows, meals.next)
    }

    constructor ()
      ensures Valid()
      ensures users.rows == map[] && restaurants.rows == map[] && meals.rows == map[]
    {
      users := EmptyTable();
      restaurants := EmptyTable();
      meals := EmptyTable();
    }
  }
}
