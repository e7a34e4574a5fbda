/**
 * Which definitions an OpenAPI document needs: the worklist of filterDefinitions, proved to compute
 * reachability through local references.
 */
module Definitions {
  import opened Common
  import opened Json

  predicate Mentions(defs: map<string, Json>, from: string, name: string) {
    from in defs && name in Refs(defs[from])
  }

  predicate Follows(defs: map<string, Json>, chain: seq<string>, i: nat)
    requires 0 < i < |chain|
  {
    Mentions(defs, chain[i - 1], chain[i])
  }

  /** A chain of references from a root: each name is mentioned in the definition of the one before. */
  ghost predicate IsChain(defs: map<string, Json>, roots: set<string>, chain: seq<string>) {
    && chain != []
    && chain[0] in roots
    && forall i :: 0 < i < |chain| ==> Follows(defs, chain, i)
  }

  ghost predicate Reachable(defs: map<string, Json>, roots: set<string>, name: string) {
    exists chain :: IsChain(defs, roots, chain) && chain[|chain| - 1] == name
  }

  /** The definitions that references from roots reach. */
  ghost function Needed(defs: map<string, Json>, roots: set<string>): map<string, Json> {
    map name | name in defs && Reachable(defs, roots, name) :: defs[name]
  }

  ghost predicate Closed(defs: map<string, Json>, names: set<string>) {
    forall n :: n in names && n in defs ==> Refs(defs[n]) <= names
  }

  lemma RootReachable(defs: map<string, Json>, roots: set<string>, name: string)
    requires name in roots
    ensures Reachable(defs, roots, name)
  {
    assert IsChain(defs, roots, [name]);
  }

  lemma ReachableStep(defs: map<string, Json>, roots: set<string>, from: string, name: string)
    requires Reachable(defs, roots, from) && Mentions(defs, from, name)
    ensures Reachable(defs, roots, name)
  {
    hide Mentions;
    var chain :| IsChain(defs, roots, chain) && chain[|chain| - 1] == from;
    var longer := chain + [name];
    forall i | 0 < i < |longer|
      ensures Follows(defs, longer, i)
    {
      assert i < |chain| ==> Follows(defs, chain, i);
    }
    assert IsChain(defs, roots, longer) && longer[|longer| - 1] == name;
  }

  lemma {:induction false} ClosedHoldsChain(defs: map<string, Json>, roots: set<string>, names: set<string>, chain: seq<string>)
    requires Closed(defs, names) && roots <= names && IsChain(defs, roots, chain)
    ensures chain[|chain| - 1] in names
    decreases |chain|
  {
    if |chain| > 1 {
      var init := chain[..|chain| - 1];
      assert forall i :: 0 < i < |init| ==> Follows(defs, chain, i) ==> Follows(defs, init, i);
      ClosedHoldsChain(defs, roots, names, init);
      assert Follows(defs, chain, |chain| - 1);
    }
  }

  /** Reachability is the least closed set over the roots. */
  lemma ReachableIsLeastClosed(defs: map<string, Json>, roots: set<string>, names: set<string>)
    requires Closed(defs, names) && roots <= names
    ensures forall n :: Reachable(defs, roots, n) ==> n in names
  {
    forall n | Reachable(defs, roots, n)
      ensures n in names
    {
      var chain :| IsChain(defs, roots, chain) && chain[|chain| - 1] == n;
      ClosedHoldsChain(defs, roots, names, chain);
    }
  }

  /** Every name the roots or any definition mentions. */
  function Universe(defs: map<string, Json>, roots: set<string>): set<string> {
    roots + set d, n | d in defs && n in Refs(defs[d]) :: n
  }

  /** The state of the worklist: processed names have their references among the needed ones. */
  ghost predicate Progress(defs: map<string, Json>, roots: set<string>, needed: set<string>, queue: seq<string>) {
    && roots <= needed <= Universe(defs, roots)
    && (forall n :: n in needed ==> Reachable(defs, roots, n))
    && (forall n :: n in needed && n !in queue && n in defs ==> Refs(defs[n]) <= needed)
  }

  lemma ProgressStep(defs: map<string, Json>, roots: set<string>, needed: set<string>, queue: seq<string>,
                     grown: set<string>, longer: seq<string>)
    requires Progress(defs, roots, needed, queue) && queue != [] && queue[0] in needed
    requires grown == needed + (if queue[0] in defs then Refs(defs[queue[0]]) else {})
    requires if grown == needed then longer == queue[1..] else forall n :: n in grown ==> n in longer
    ensures Progress(defs, roots, grown, longer)
  {
    forall n | n in grown
      ensures Reachable(defs, roots, n)
    {
      if n !in needed {
        ReachableStep(defs, roots, queue[0], n);
      }
    }
    assert forall n :: n in queue ==> n == queue[0] || n in queue[1..];
  }

  /** The names of a set in some order, as iterating over a map gives them. */
  method ListOf(names: set<string>) returns (list: seq<string>)
    ensures forall n :: n in list <==> n in names
  {
    list := [];
    var todo := names;
    while todo != {}
      invariant todo <= names
      invariant forall n :: n in list <==> n in names - todo
      decreases todo
    {
      var n :| n in todo;
      list, todo := list + [n], todo - {n};
    }
  }

  /** Puts every name that is not waiting yet at the end of the queue, in some order. */
  method Requeue(names: set<string>, queue: seq<string>) returns (longer: seq<string>)
    requires forall n :: n in queue ==> n in names
    ensures forall n :: n in longer <==> n in names
  {
    longer := queue;
    var todo := names;
    while todo != {}
      invariant todo <= names
      invariant forall n :: n in longer ==> n in names
      invariant forall n :: n in names - todo ==> n in longer
      decreases todo
    {
      var candidate :| candidate in todo;
      if candidate !in longer {
        longer := longer + [candidate];
      }
      todo := todo - {candidate};
    }
  }

  /** One round of the worklist: take the first name, and requeue everything if it brought in new names. */
  method Process(definitions: map<string, Json>, needed: NameSet, waiting: seq<string>) returns (queue: seq<string>)
    requires waiting != [] && forall n :: n in waiting ==> n in needed.names
    modifies needed
    ensures needed.names
         == old(needed.names) + (if waiting[0] in definitions then Refs(definitions[waiting[0]]) else {})
    ensures if needed.names == old(needed.names) then queue == waiting[1..]
            else forall n :: n in queue <==> n in needed.names
  {
    var name := waiting[0];
    queue := waiting[1..];
    if name !in definitions {
      return;
    }
    ghost var names := needed.names;
    var before := |needed.names|;
    CollectDefinitionRefs(definitions[name], needed);
    SubsetSize(names, needed.names);
    if |needed.names| != before {
      queue := Requeue(needed.names, queue);
    }
  }

  /**
   * The worklist terminates although it queues processed names again, and whatever order the queue
   * and the maps are visited in, it returns exactly the definitions reachable from the paths.
   */
  method FilterDefinitions(raw: Json, paths: map<string, Json>) returns (filtered: map<string, Json>)
    ensures filtered == (if raw.Obj? then Needed(raw.fields, Refs(Obj(paths))) else map[])
  {
    if !raw.Obj? || |raw.fields| == 0 {
      return map[];
    }
    var definitions := raw.fields;
    ghost var roots := Refs(Obj(paths));
    hide *;
    var needed := new NameSet();
    CollectDefinitionRefs(Obj(paths), needed);
    var queue := ListOf(needed.names);
    ProgressStarts(definitions, roots, queue);
    while |queue| > 0
      invariant Progress(definitions, roots, needed.names, queue)
      invariant forall n :: n in queue ==> n in needed.names
      decreases Universe(definitions, roots) - needed.names, |queue|
    {
      ghost var names, waiting := needed.names, queue;
      queue := Process(definitions, needed, queue);
      ProgressStep(definitions, roots, names, waiting, needed.names, queue);
      Shrinks(definitions, roots, names, needed.names, waiting, queue);
    }
    ProgressEnds(definitions, roots, needed.names);
    filtered := map n | n in definitions && n in needed.names :: definitions[n];
  }

  lemma ProgressStarts(defs: map<string, Json>, roots: set<string>, queue: seq<string>)
    requires forall n :: n in queue <==> n in roots
    ensures Progress(defs, roots, roots, queue)
  {
    hide Reachable;
    forall n | n in roots
      ensures Reachable(defs, roots, n)
    {
      RootReachable(defs, roots, n);
    }
  }

  /** A round finds new names, of which there are finitely many, or shortens the queue. */
  lemma Shrinks(defs: map<string, Json>, roots: set<string>, names: set<string>, grown: set<string>,
                queue: seq<string>, longer: seq<string>)
    requires Progress(defs, roots, grown, longer) && names <= grown && queue != []
    requires grown == names ==> longer == queue[1..]
    ensures var universe := Universe(defs, roots);
      universe - grown < universe - names || (universe - grown == universe - names && |longer| < |queue|)
  {
    hide Universe, Reachable;
    var universe := Universe(defs, roots);
    if grown != names {
      var n :| n in grown && n !in names;
      assert n in universe - names && n !in universe - grown;
    }
  }

  lemma ProgressEnds(defs: map<string, Json>, roots: set<string>, names: set<string>)
    requires Progress(defs, roots, names, [])
    ensures Needed(defs, roots) == map n | n in defs && n in names :: defs[n]
  {
    hide Reachable;
    assert Closed(defs, names);
    ReachableIsLeastClosed(defs, roots, names);
  }

  /** A local reference anywhere in the paths or in a kept definition names a kept definition, if it named one at all. */
  lemma NeededResolves(defs: map<string, Json>, roots: set<string>, name: string)
    requires name in defs
    requires name in roots || exists d :: d in Needed(defs, roots) && name in Refs(defs[d])
    ensures name in Needed(defs, roots)
  {
    if name in roots {
      RootReachable(defs, roots, name);
    } else {
      var d :| d in Needed(defs, roots) && name in Refs(defs[d]);
      ReachableStep(defs, roots, d, name);
    }
  }
}
