/**
 Live collections (src/bindings/Collections.cpp): the members found are kept until the document's counters say that the
 tree, or for some queries an attribute, has changed.
 */
module Collections {
  /** A document: its tree and attributes, each with the counter every change of it moves on. */
  datatype Document<T, A> = Document(tree: T, treeVersion: nat, attributes: A, attributeVersion: nat)

  /** What a collection keeps. */
  datatype Cache = Cache(found: bool, members: seq<nat>, tree: nat, attribute: nat)

  /** A collection over a document: its query, whether the query reads attributes, and whether its root is gone for good. */
  datatype World<!T, !A> = World(query: (T, A) -> seq<nat>, flagged: bool, document: Document<T, A>, detached: bool, cache: Cache)

  datatype Act<T, A> = ChangeTree(tree: T) | ChangeAttributes(attributes: A) | Detach | Read

  function NoCache(): Cache { Cache(false, [], 0, 0) }

  /** Whether the members kept will do. */
  predicate Kept<T, A>(w: World<T, A>) {
    && w.cache.found && w.document.treeVersion == w.cache.tree
    && (if w.flagged then w.document.attributeVersion else 0) == w.cache.attribute
  }

  function Fresh<T, A>(w: World<T, A>): seq<nat> {
    if w.detached then [] else w.query(w.document.tree, w.document.attributes)
  }

  /** `members`: what it leaves in the cache, which is what it answers. */
  function Refreshed<T, A>(w: World<T, A>): Cache {
    if w.detached then w.cache.(members := [])
    else if Kept(w) then w.cache
    else Cache(true, Fresh(w), w.document.treeVersion, if w.flagged then w.document.attributeVersion else 0)
  }

  function Do<T, A>(w: World<T, A>, a: Act<T, A>): World<T, A> {
    match a
    case ChangeTree(t) => w.(document := w.document.(tree := t, treeVersion := w.document.treeVersion + 1))
    case ChangeAttributes(s) =>
      w.(document := w.document.(attributes := s, attributeVersion := w.document.attributeVersion + 1))
    case Detach => w.(detached := true)
    case Read => w.(cache := Refreshed(w))
  }

  function After<T, A>(w: World<T, A>, run: seq<Act<T, A>>): World<T, A>
    decreases |run|
  {
    if run == [] then w else After(Do(w, run[0]), run[1..])
  }

  /** A query that reads the tree alone. */
  ghost predicate TreeOnly<T(!new), A(!new)>(query: (T, A) -> seq<nat>) {
    forall t: T, a: A, b: A :: query(t, a) == query(t, b)
  }

  /** What a cache that will do was found in: the tree there is, and the attributes too where they matter. */
  ghost predicate Inv<T, A>(w: World<T, A>) {
    && w.cache.tree <= w.document.treeVersion
    && w.cache.attribute <= (if w.flagged then w.document.attributeVersion else 0)
    && (Kept(w) && !w.detached ==> w.cache.members == w.query(w.document.tree, w.document.attributes))
  }

  lemma StepKeeps<T(!new), A(!new)>(w: World<T, A>, a: Act<T, A>)
    requires Inv(w) && (w.flagged || TreeOnly(w.query))
    ensures Inv(Do(w, a)) && Do(w, a).query == w.query && Do(w, a).flagged == w.flagged
  {
  }

  lemma {:induction false} RunKeeps<T(!new), A(!new)>(w: World<T, A>, run: seq<Act<T, A>>)
    requires Inv(w) && (w.flagged || TreeOnly(w.query))
    ensures Inv(After(w, run))
    decreases |run|
  {
    hide Inv;
    if run != [] {
      StepKeeps(w, run[0]);
      RunKeeps(Do(w, run[0]), run[1..]);
    }
  }

  /** Once its root is gone for good, a collection stays so and has no members, whatever else happens. */
  lemma {:induction false} NoneOnceDetached<T(!new), A(!new)>(w: World<T, A>, run: seq<Act<T, A>>, n: nat)
    requires n < |run| && run[n] == Detach
    ensures After(w, run).detached && Refreshed(After(w, run)).members == []
    decreases |run|
  {
    if n > 0 {
      NoneOnceDetached(Do(w, run[0]), run[1..], n - 1);
    } else {
      StaysDetached(Do(w, run[0]), run[1..]);
    }
  }

  lemma {:induction false} StaysDetached<T(!new), A(!new)>(w: World<T, A>, run: seq<Act<T, A>>)
    requires w.detached
    ensures After(w, run).detached
    decreases |run|
  {
    hide Refreshed;
    if run != [] {
      StaysDetached(Do(w, run[0]), run[1..]);
    }
  }

  ghost predicate AlwaysFresh<T(!new), A(!new)>(w: World<T, A>) {
    forall run: seq<Act<T, A>> :: Refreshed(After(w, run)).members == Fresh(After(w, run))
  }

  /**
   Every read, after any changes and other reads in any order, answers what a fresh run of the query would, exactly if the
   query reads attributes only where it is flagged as doing so.
   */
  lemma FreshIff<T(!new), A(!new)>(query: (T, A) -> seq<nat>, flagged: bool)
    ensures (forall d: Document<T, A> :: AlwaysFresh(World(query, flagged, d, false, NoCache()))) <==> flagged || TreeOnly(query)
  {
    if flagged || TreeOnly(query) {
      forall d: Document<T, A>
        ensures AlwaysFresh(World(query, flagged, d, false, NoCache()))
      {
        var w := World(query, flagged, d, false, NoCache());
        forall run: seq<Act<T, A>>
          ensures Refreshed(After(w, run)).members == Fresh(After(w, run))
        {
          RunKeeps(w, run);
        }
      }
    } else {
      var t: T, a: A, b: A :| query(t, a) != query(t, b);
      var d := Document(t, 0, a, 0);
      Stale(query, d, b);
      assert !AlwaysFresh(World(query, flagged, d, false, NoCache()));
    }
  }

  /** A query that reads attributes unflagged: read, change an attribute, and the next read answers what was. */
  lemma Stale<T(!new), A(!new)>(query: (T, A) -> seq<nat>, d: Document<T, A>, b: A)
    requires query(d.tree, d.attributes) != query(d.tree, b)
    ensures var w := After(World(query, false, d, false, NoCache()), [Read, ChangeAttributes(b)]);
            Refreshed(w).members == query(d.tree, d.attributes) != Fresh(w)
  {
    var w := World(query, false, d, false, NoCache());
    var run: seq<Act<T, A>> := [Read, ChangeAttributes(b)];
    assert run[1..] == [ChangeAttributes(b)] && run[1..][1..] == [];
    var x := Do(w, Read);
    assert After(w, run) == After(x, run[1..]);
    assert After(x, run[1..]) == After(Do(x, ChangeAttributes(b)), []);
  }

  class LiveCollection<!T(!new), !A(!new)> {
    const query: (T, A) -> seq<nat>
    const attributes: bool
    var members: seq<nat>
    var found: bool
    var tree: nat
    var attribute: nat

    constructor (query: (T, A) -> seq<nat>, attributes: bool)
      ensures this.query == query && this.attributes == attributes && Kept() == NoCache()
    {
      this.query, this.attributes := query, attributes;
      members, found, tree, attribute := [], false, 0, 0;
    }

    function Kept(): Cache
      reads this
    {
      Cache(found, members, tree, attribute)
    }

    method Members(document: Document<T, A>, detached: bool) returns (answer: seq<nat>)
      modifies this
      ensures Kept() == Refreshed(World(query, attributes, document, detached, old(Kept()))) && answer == members
    {
      if detached {
        members := [];
        return members;
      }
      var version := if attributes then document.attributeVersion else 0;
      if !found || document.treeVersion != tree || version != attribute {
        members := query(document.tree, document.attributes);
        found, tree, attribute := true, document.treeVersion, version;
      }
      answer := members;
    }
  }
}
