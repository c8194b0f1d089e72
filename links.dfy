/** Link tables as sets of pairs, and the row loops that read them.
 *
 *  Every link table of the schema has a composite primary key, so it is a set
 *  of pairs: `INSERT OR IGNORE` is set insertion and `DELETE ... WHERE` is
 *  filtering. A query over such a table yields its rows in an order SQLite
 *  does not specify; the loops below pick an arbitrary remaining row each
 *  turn, so their contracts hold for every order. */
module Links {
  import opened Entities

  /** The values a parent is linked to (`SELECT v FROM t WHERE parent = ?`). */
  function ChildrenOf<V(==,!new)>(links: set<(Id, V)>, parent: Id): (r: set<V>)
    ensures forall v :: v in r <==> (parent, v) in links
  {
    set p | p in links && p.0 == parent :: p.1
  }

  /** The owners linked to a target, for tables keyed by their second column. */
  function OwnersOf<V(==,!new)>(links: set<(V, Id)>, target: Id): (r: set<V>)
    ensures forall c :: c in r <==> (c, target) in links
  {
    set p | p in links && p.1 == target :: p.0
  }

  /** `DELETE FROM t WHERE parent = ?` */
  function WithoutParent<V(==,!new)>(links: set<(Id, V)>, parent: Id): set<(Id, V)>
  {
    set p | p in links && p.0 != parent
  }

  /** `DELETE FROM t WHERE target = ?`, for the second column. */
  function WithoutTarget<V(==,!new)>(links: set<(V, Id)>, target: Id): set<(V, Id)>
  {
    set p | p in links && p.1 != target
  }

  /** The rows `(parent, v)` for every `v` of a list. */
  function LinksFrom<V(==,!new)>(parent: Id, vs: seq<V>): set<(Id, V)>
  {
    set v | v in vs :: (parent, v)
  }

  /** The rows `(c, target)` for every `c` of a list. */
  function LinksTo<V(==,!new)>(owners: seq<V>, target: Id): set<(V, Id)>
  {
    set c | c in owners :: (c, target)
  }

  /** A parent's links replaced by exactly the listed values. */
  function ReplaceChildren<V(==,!new)>(links: set<(Id, V)>, parent: Id, vs: seq<V>): set<(Id, V)>
  {
    WithoutParent(links, parent) + LinksFrom(parent, vs)
  }

  /** A target's links replaced by exactly the listed owners. */
  function ReplaceOwners<V(==,!new)>(links: set<(V, Id)>, target: Id, owners: seq<V>): set<(V, Id)>
  {
    WithoutTarget(links, target) + LinksTo(owners, target)
  }

  /** After a replacement the parent has exactly the listed values, and every
   *  other parent keeps what it had. */
  lemma {:induction false} ReplaceChildrenExact<V(!new)>(links: set<(Id, V)>, parent: Id, vs: seq<V>, q: Id)
    ensures ChildrenOf(ReplaceChildren(links, parent, vs), q)
            == if q == parent then (set v | v in vs) else ChildrenOf(links, q)
  {
    var r := ReplaceChildren(links, parent, vs);
    if q == parent {
      forall v ensures v in ChildrenOf(r, q) <==> v in vs {
        assert (q, v) in r <==> (q, v) in LinksFrom(parent, vs);
      }
    } else {
      forall v ensures v in ChildrenOf(r, q) <==> v in ChildrenOf(links, q) {
        assert (q, v) in r <==> (q, v) in WithoutParent(links, parent);
      }
    }
  }

  /** The same for tables keyed by their second column. */
  lemma {:induction false} ReplaceOwnersExact<V(!new)>(links: set<(V, Id)>, target: Id, owners: seq<V>, q: Id)
    ensures OwnersOf(ReplaceOwners(links, target, owners), q)
            == if q == target then (set c | c in owners) else OwnersOf(links, q)
  {
    var r := ReplaceOwners(links, target, owners);
    if q == target {
      forall c ensures c in OwnersOf(r, q) <==> c in owners {
        assert (c, q) in r <==> (c, q) in LinksTo(owners, target);
      }
    } else {
      forall c ensures c in OwnersOf(r, q) <==> c in OwnersOf(links, q) {
        assert (c, q) in r <==> (c, q) in WithoutTarget(links, target);
      }
    }
  }

  /** Removing one parent's rows leaves the other parents' rows alone. */
  lemma WithoutParentExact<V(!new)>(links: set<(Id, V)>, parent: Id, q: Id)
    ensures ChildrenOf(WithoutParent(links, parent), q) == if q == parent then {} else ChildrenOf(links, q)
  {
    var r := WithoutParent(links, parent);
    forall v ensures v in ChildrenOf(r, q) <==> q != parent && v in ChildrenOf(links, q) {
      assert (q, v) in r <==> q != parent && (q, v) in links;
    }
  }

  lemma LinksFromSnoc<V(!new)>(parent: Id, vs: seq<V>, x: V)
    ensures LinksFrom(parent, vs + [x]) == LinksFrom(parent, vs) + {(parent, x)}
  {
    forall p | p in LinksFrom(parent, vs + [x]) ensures p in LinksFrom(parent, vs) + {(parent, x)} {
      var v :| v in vs + [x] && p == (parent, v);
      if v != x { assert v in vs; }
    }
  }

  lemma LinksToSnoc<V(!new)>(owners: seq<V>, target: Id, x: V)
    ensures LinksTo(owners + [x], target) == LinksTo(owners, target) + {(x, target)}
  {
    forall p | p in LinksTo(owners + [x], target) ensures p in LinksTo(owners, target) + {(x, target)} {
      var c :| c in owners + [x] && p == (c, target);
      if c != x { assert c in owners; }
    }
  }

  /** The rows `(parent, v)` for the listed `v` that are not kept: what a
   *  loop of `DELETE ... WHERE parent = ? AND v = ?` over the old values
   *  removes. */
  function StaleFrom<V(==,!new)>(parent: Id, olds: seq<V>, keep: seq<V>): set<(Id, V)>
  {
    set v | v in olds && v !in keep :: (parent, v)
  }

  /** The same for tables keyed by their second column. */
  function StaleTo<V(==,!new)>(olds: seq<V>, target: Id, keep: seq<V>): set<(V, Id)>
  {
    set c | c in olds && c !in keep :: (c, target)
  }

  lemma StaleFromSnoc<V(!new)>(parent: Id, olds: seq<V>, keep: seq<V>, j: nat)
    requires j < |olds|
    ensures StaleFrom(parent, olds[..j + 1], keep)
            == StaleFrom(parent, olds[..j], keep) + if olds[j] in keep then {} else {(parent, olds[j])}
  {
    assert olds[..j + 1] == olds[..j] + [olds[j]];
  }

  lemma StaleToSnoc<V(!new)>(olds: seq<V>, target: Id, keep: seq<V>, j: nat)
    requires j < |olds|
    ensures StaleTo(olds[..j + 1], target, keep)
            == StaleTo(olds[..j], target, keep) + if olds[j] in keep then {} else {(olds[j], target)}
  {
    assert olds[..j + 1] == olds[..j] + [olds[j]];
  }

  /** Inserting the new values and then deleting the old ones that are not
   *  new replaces the parent's values by exactly the new ones. */
  lemma {:induction false} ReconcileChildren<V(!new)>(links: set<(Id, V)>, parent: Id, olds: seq<V>, vs: seq<V>)
    requires forall v :: v in olds <==> (parent, v) in links
    ensures (links + LinksFrom(parent, vs)) - StaleFrom(parent, olds, vs) == ReplaceChildren(links, parent, vs)
  {
    var lhs := (links + LinksFrom(parent, vs)) - StaleFrom(parent, olds, vs);
    forall p ensures p in lhs <==> p in ReplaceChildren(links, parent, vs) {
      if p.0 == parent {
        assert p == (parent, p.1);
        assert p in LinksFrom(parent, vs) <==> p.1 in vs;
        assert p in StaleFrom(parent, olds, vs) <==> p.1 in olds && p.1 !in vs;
      }
    }
  }

  /** The same for tables keyed by their second column. */
  lemma {:induction false} ReconcileOwners<V(!new)>(links: set<(V, Id)>, target: Id, olds: seq<V>, owners: seq<V>)
    requires forall c :: c in olds <==> (c, target) in links
    ensures (links + LinksTo(owners, target)) - StaleTo(olds, target, owners) == ReplaceOwners(links, target, owners)
  {
    var lhs := (links + LinksTo(owners, target)) - StaleTo(olds, target, owners);
    forall p ensures p in lhs <==> p in ReplaceOwners(links, target, owners) {
      if p.1 == target {
        assert p == (p.0, target);
        assert p in LinksTo(owners, target) <==> p.0 in owners;
        assert p in StaleTo(olds, target, owners) <==> p.0 in olds && p.0 !in owners;
      }
    }
  }

  /** A filter on a joined value: anything (no filter given) or one of a set
   *  (`col IN (...)`). */
  datatype Among<V> = Anything | OneOf(values: set<V>)
  {
    predicate Admits(v: V)
    {
      Anything? || v in values
    }
  }

  /** The values linked to `parent` that pass `filter`: for a join, one output
   *  row per element. */
  function LinkedAmong<V(==,!new)>(links: set<(Id, V)>, parent: Id, filter: Among<V>): (r: set<V>)
    ensures forall v :: v in r <==> (parent, v) in links && filter.Admits(v)
  {
    set p | p in links && p.0 == parent && filter.Admits(p.1) :: p.1
  }

  /** Reading one more row adds one to exactly the count of its own parent,
   *  when it passes the filter. */
  lemma {:induction false} LinkedAmongAdd<V(!new)>(done: set<(Id, V)>, p: (Id, V), parent: Id, filter: Among<V>)
    requires p !in done
    ensures |LinkedAmong(done + {p}, parent, filter)|
            == |LinkedAmong(done, parent, filter)| + if p.0 == parent && filter.Admits(p.1) then 1 else 0
  {
    var before := LinkedAmong(done, parent, filter);
    var after := LinkedAmong(done + {p}, parent, filter);
    if p.0 == parent && filter.Admits(p.1) {
      assert p == (parent, p.1);
      assert p.1 !in before;
      assert after == before + {p.1};
    } else {
      assert after == before;
    }
  }

  /** Reads `SELECT v FROM t WHERE parent = ?` row by row: every linked value,
   *  each once. */
  method CollectChildren<V(==,!new)>(links: set<(Id, V)>, parent: Id) returns (children: seq<V>)
    ensures forall v :: v in children <==> (parent, v) in links
    ensures Distinct(children)
  {
    children := [];
    var rest := links;
    while rest != {}
      invariant rest <= links
      invariant forall v :: v in children <==> (parent, v) in links && (parent, v) !in rest
      invariant Distinct(children)
      decreases rest
    {
      var p :| p in rest;
      if p.0 == parent {
        children := children + [p.1];
      }
      rest := rest - {p};
    }
  }

  /** Reads `SELECT c FROM t WHERE target = ?` row by row, for tables keyed by
   *  their second column. */
  method CollectOwners<V(==,!new)>(links: set<(V, Id)>, target: Id) returns (owners: seq<V>)
    ensures forall c :: c in owners <==> (c, target) in links
    ensures Distinct(owners)
  {
    owners := [];
    var rest := links;
    while rest != {}
      invariant rest <= links
      invariant forall c :: c in owners <==> (c, target) in links && (c, target) !in rest
      invariant Distinct(owners)
      decreases rest
    {
      var p :| p in rest;
      if p.1 == target {
        owners := owners + [p.0];
      }
      rest := rest - {p};
    }
  }

  /** Reads `SELECT parent, v FROM t WHERE parent IN (ids)` row by row into a
   *  map from parent to its values: a parent with no row has no entry. */
  method CollectBatch<V(==,!new)>(links: set<(Id, V)>, ids: seq<Id>) returns (result: map<Id, seq<V>>)
    ensures forall c :: c in result ==> c in ids && result[c] != [] && Distinct(result[c])
    ensures forall c, v :: c in result && v in result[c] <==> c in ids && (c, v) in links
  {
    result := map[];
    var rest := links;
    while rest != {}
      invariant rest <= links
      invariant forall c :: c in result ==> c in ids && result[c] != [] && Distinct(result[c])
      invariant forall c, v :: c in result && v in result[c] <==> c in ids && (c, v) in links && (c, v) !in rest
      decreases rest
    {
      var p :| p in rest;
      if p.0 in ids {
        // result[commandID] = append(result[commandID], v)
        var sofar := if p.0 in result then result[p.0] else [];
        assert p.1 !in sofar;
        result := result[p.0 := sofar + [p.1]];
      }
      rest := rest - {p};
    }
  }
}
