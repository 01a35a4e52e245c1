/** The two read views of server.js: GET /api/cars (every row) and
    GET /api/cars/public (`status = 'active'` only), both
    `ORDER BY created_at DESC`. SQL leaves the order of equal timestamps
    open, so the contracts fix only the ordering and the multiset of rows. */
module CarViews {
  import opened Wrappers
  import opened Cars
  import opened CarStore

  /** Ordered by `created_at` descending. */
  predicate NewestFirst(v: seq<Car>)
  {
    forall i, j | 0 <= i < j < |v| :: v[i].createdAt >= v[j].createdAt
  }

  /** A row no older than everything in a newest-first sequence may lead it. */
  lemma PrependNewest(h: Car, t: seq<Car>)
    requires NewestFirst(t)
    requires forall x | x in t :: x.createdAt <= h.createdAt
    ensures NewestFirst([h] + t)
  {
    forall i, j | 0 <= i < j < |[h] + t|
      ensures ([h] + t)[i].createdAt >= ([h] + t)[j].createdAt
    {
      if i > 0 {
        assert ([h] + t)[i] == t[i - 1] && ([h] + t)[j] == t[j - 1];
      } else {
        assert ([h] + t)[j] == t[j - 1];
        assert t[j - 1] in t;
      }
    }
  }

  /** The recursive step of the insertion: `c` goes after the first row,
      which is newer. */
  lemma InsertBehindHead(c: Car, v: seq<Car>, tail: seq<Car>)
    requires NewestFirst(v) && |v| > 0 && c.createdAt < v[0].createdAt
    requires NewestFirst(tail) && multiset(tail) == multiset(v[1..]) + multiset{c}
    ensures NewestFirst([v[0]] + tail)
    ensures multiset([v[0]] + tail) == multiset(v) + multiset{c}
  {
    assert v == [v[0]] + v[1..];
    forall x | x in tail ensures x.createdAt <= v[0].createdAt {
      assert x in multiset(tail);
      if x != c {
        assert x in v[1..];
        var j :| 0 <= j < |v[1..]| && v[1..][j] == x;
        assert v[j + 1] == x;
      }
    }
    PrependNewest(v[0], tail);
  }

  /** Places `c` in front of the first row not newer than it. */
  function InsertNewestFirst(c: Car, v: seq<Car>): (r: seq<Car>)
    requires NewestFirst(v)
    ensures NewestFirst(r)
    ensures multiset(r) == multiset(v) + multiset{c}
  {
    if |v| == 0 || c.createdAt >= v[0].createdAt then
      PrependNewest(c, v);
      [c] + v
    else
      var tail := InsertNewestFirst(c, v[1..]);
      InsertBehindHead(c, v, tail);
      [v[0]] + tail
  }

  /** `ORDER BY created_at DESC` over a sequence of rows. */
  function SortNewestFirst(rows: seq<Car>): (r: seq<Car>)
    ensures NewestFirst(r)
    ensures multiset(r) == multiset(rows)
  {
    if |rows| == 0 then []
    else
      assert rows == [rows[0]] + rows[1..];
      InsertNewestFirst(rows[0], SortNewestFirst(rows[1..]))
  }

  /** A row may lead rows taken from the rest of a newest-first sequence. */
  lemma PrependFromTail(rows: seq<Car>, tail: seq<Car>)
    requires |rows| > 0 && NewestFirst(rows)
    requires NewestFirst(tail)
    requires forall x | x in tail :: x in rows[1..]
    ensures NewestFirst([rows[0]] + tail)
  {
    forall x | x in tail ensures x.createdAt <= rows[0].createdAt {
      var j :| 0 <= j < |rows[1..]| && rows[1..][j] == x;
      assert rows[j + 1] == x;
    }
    PrependNewest(rows[0], tail);
  }

  /** `WHERE status = 'active'`: the active rows, in their order. */
  function ActiveOnly(rows: seq<Car>): (r: seq<Car>)
    ensures forall x | x in r :: x in rows && x.status == Active
    ensures forall x :: multiset(r)[x] == if x.status == Active then multiset(rows)[x] else 0
    ensures NewestFirst(rows) ==> NewestFirst(r)
  {
    if |rows| == 0 then []
    else
      assert rows == [rows[0]] + rows[1..];
      var tail := ActiveOnly(rows[1..]);
      assert NewestFirst(rows) ==> NewestFirst(rows[1..]);
      if rows[0].status == Active then
        assert NewestFirst(rows) ==> NewestFirst([rows[0]] + tail) by {
          if NewestFirst(rows) {
            PrependFromTail(rows, tail);
          }
        }
        [rows[0]] + tail
      else
        tail
  }

  /** GET /api/cars: every row of the table, newest first. */
  function AdminView(s: Store): (r: seq<Car>)
    ensures NewestFirst(r)
    ensures multiset(r) == multiset(s.rows)
  {
    SortNewestFirst(s.rows)
  }

  /** GET /api/cars/public: the active rows, each as often as it is stored,
      newest first. */
  function PublicView(s: Store): (r: seq<Car>)
    ensures NewestFirst(r)
    ensures forall x :: multiset(r)[x] == if x.status == Active then multiset(s.rows)[x] else 0
  {
    SortNewestFirst(ActiveOnly(s.rows))
  }

  /** The public view holds the same rows as the admin view filtered to
      active ones, and that filtered admin view is itself newest first. */
  lemma PublicIsActiveAdmin(s: Store)
    ensures multiset(PublicView(s)) == multiset(ActiveOnly(AdminView(s)))
    ensures NewestFirst(ActiveOnly(AdminView(s)))
  {
    var p := PublicView(s);
    var a := ActiveOnly(AdminView(s));
    forall x
      ensures multiset(p)[x] == multiset(a)[x]
    {
    }
  }

  /** A stored row always appears in the admin view, and in the public view
      exactly when its status is `'active'`. */
  lemma VisibilitySplit(s: Store, c: Car)
    requires c in s.rows
    ensures c in AdminView(s)
    ensures c in PublicView(s) <==> c.status == Active
  {
    assert multiset(s.rows)[c] > 0;
    assert c in multiset(AdminView(s));
    if c.status == Active {
      assert c in multiset(PublicView(s));
    }
  }

  /** POST /api/cars never writes `status`: a new car is public whatever
      status its body carries, so a save cannot hide it. */
  lemma SaveCannotHide(s: Store, c: JsonCar, k: string)
    requires Valid(s)
    requires c.id == Some(k) && DataOf(c).Some? && Lookup(s, k).None?
    ensures Save(s, c).Success?
    ensures Lookup(Save(s, c).value, k).Some?
    ensures Lookup(Save(s, c).value, k).value in PublicView(Save(s, c).value)
  {
    SaveInsertsNew(s, c, k);
    var r := Save(s, c).value;
    var j := IndexOf(r.rows, k).value;
    VisibilitySplit(r, r.rows[j]);
  }
}
