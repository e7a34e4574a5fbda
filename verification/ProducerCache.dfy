/** The lazily filled cache of Kafka producers, keyed by the joined broker list. */
module ProducerCache {
  import opened Common
  import opened Brokers

  /** The client library: the broker list each producer was created for, and the producers closed, in order. */
  class Library {
    var created: seq<seq<string>>
    var closed: seq<nat>

    constructor ()
      ensures created == [] && closed == []
    {
      created, closed := [], [];
    }

    method NewSyncProducer(brokers: seq<string>, fails: bool) returns (handle: Option<nat>)
      modifies this
      ensures closed == old(closed)
      ensures if fails then handle == None && created == old(created)
              else handle == Some(|old(created)|) && created == old(created) + [brokers]
    {
      if fails {
        return None;
      }
      handle := Some(|created|);
      created := created + [brokers];
    }

    method CloseProducer(handle: nat)
      modifies this
      ensures created == old(created) && closed == old(closed) + [handle]
    {
      closed := closed + [handle];
    }
  }

  /** Every cached producer is open and was created for a list that joins to its key; every other one was closed, once. */
  ghost predicate CacheInv(producers: map<string, nat>, created: seq<seq<string>>, closed: seq<nat>) {
    && (forall key :: key in producers ==>
          && producers[key] < |created| && producers[key] !in closed
          && Join(created[producers[key]]) == key)
    && (forall h :: 0 <= h < |created| ==> IsNormal(created[h]) && created[h] != [])
    && (forall h :: h in closed ==> h < |created|)
    && (forall i, j :: 0 <= i < j < |closed| ==> closed[i] != closed[j])
    && (forall h: nat :: h < |created| && h !in closed ==>
          Join(created[h]) in producers && producers[Join(created[h])] == h)
  }

  lemma CloseOne(producers: map<string, nat>, created: seq<seq<string>>, closed: seq<nat>, key: string)
    requires CacheInv(producers, created, closed) && key in producers
    ensures CacheInv(producers - {key}, created, closed + [producers[key]])
  {
    hide Join, IsNormal;
  }

  function Effective(defaults: seq<string>, brokers: seq<string>): seq<string> {
    if Normalize(brokers) != [] then Normalize(brokers)
    else if defaults != [] then defaults
    else [DEFAULT_BROKER]
  }

  lemma EffectiveIsNormal(defaults: seq<string>, brokers: seq<string>)
    requires IsNormal(defaults)
    ensures IsNormal(Effective(defaults, brokers)) && Effective(defaults, brokers) != []
  {
    NormalizeShape(brokers);
    assert !IsSpace('l') && !IsSpace('2');
    assert DEFAULT_BROKER[0] == 'l' && DEFAULT_BROKER[|DEFAULT_BROKER| - 1] == '2';
  }

  /** The call's brokers count as soon as one of them is not blank, then those of the producer, then the local one. */
  lemma EffectiveExactly(configured: seq<string>, brokers: seq<string>)
    ensures var defaults := Normalize(configured);
      && ((exists b :: b in brokers && Trim(b) != "") ==> Effective(defaults, brokers) == Normalize(brokers) != [])
      && ((forall b :: b in brokers ==> Trim(b) == "") && (exists b :: b in configured && Trim(b) != "") ==>
            Effective(defaults, brokers) == defaults != [])
      && ((forall b :: b in brokers + configured ==> Trim(b) == "") ==> Effective(defaults, brokers) == ["localhost:9092"])
  {
    SomethingLeft(brokers);
    SomethingLeft(configured);
    hide Normalize, Trim;
    assert forall b :: b in brokers + configured <==> b in brokers || b in configured;
  }

  /** The cache together with what the library has seen of it. */
  datatype Cache = Cache(producers: map<string, nat>, created: seq<seq<string>>, closed: seq<nat>)

  /** What finding the producer of a list, under the lock, does to the cache. */
  ghost predicate Fetches(c: Cache, list: seq<string>, fails: bool, used: Option<nat>, c': Cache) {
    if Join(list) in c.producers then used == Some(c.producers[Join(list)]) && c' == c
    else if fails then used == None && c' == c
    else
      && used == Some(|c.created|)
      && c' == Cache(c.producers[Join(list) := |c.created|], c.created + [list], c.closed)
  }

  /** What closing does to it: nothing is cached any more, and everything created has been closed, once. */
  ghost predicate Closes(c: Cache, c': Cache) {
    && c'.producers == map[] && c'.created == c.created && c.closed <= c'.closed
    && (forall h: nat :: h in c'.closed <==> h < |c.created|)
    && (forall i, j :: 0 <= i < j < |c'.closed| ==> c'.closed[i] != c'.closed[j])
  }

  /** Every open or closed producer was created for a list without commas. */
  ghost predicate AllCommaFree(created: seq<seq<string>>) {
    forall h :: 0 <= h < |created| ==> CommaFree(created[h])
  }

  class Producer {
    var producers: map<string, nat>
    const defaultBrokers: seq<string>
    const library: Library

    constructor (brokers: seq<string>, library: Library)
      requires library.created == [] && library.closed == []
      ensures producers == map[] && this.library == library && defaultBrokers == Normalize(brokers) && Valid()
    {
      this.producers := map[];
      this.library := library;
      var normal := NormalizeBrokers(brokers);
      defaultBrokers := normal;
      NormalizeShape(brokers);
    }

    /** What every run of ProducerFor and Close keeps. */
    ghost predicate Valid()
      reads this, library
    {
      IsNormal(defaultBrokers) && CacheInv(producers, library.created, library.closed)
    }

    ghost function Cached(): Cache
      reads this, library
    {
      Cache(producers, library.created, library.closed)
    }

    method EffectiveBrokers(brokers: seq<string>) returns (out: seq<string>)
      ensures out == Effective(defaultBrokers, brokers)
    {
      out := NormalizeBrokers(brokers);
      if |out| > 0 {
        return;
      }
      if |defaultBrokers| > 0 {
        return defaultBrokers;
      }
      return [DEFAULT_BROKER];
    }

    /** The producer that Publish sends with; None when it has to be created and creating it fails. */
    method ProducerFor(brokers: seq<string>, fails: bool) returns (used: Option<nat>)
      requires Valid()
      modifies this, library
      ensures Valid() && Fetches(old(Cached()), Effective(defaultBrokers, brokers), fails, used, Cached())
      ensures used.Some? ==>
        var list := Effective(defaultBrokers, brokers);
        library.created[used.value] != list <==> old(OpenForAnother(library.created, library.closed, list))
      ensures old(AllCommaFree(library.created)) && CommaFree(Effective(defaultBrokers, brokers)) ==>
        && AllCommaFree(library.created)
        && (used.Some? ==> library.created[used.value] == Effective(defaultBrokers, brokers))
    {
      var list := EffectiveBrokers(brokers);
      EffectiveIsNormal(defaultBrokers, brokers);
      var key := Join(list);
      if key in producers {
        UsedIsExact(producers, library.created, library.closed, list);
        return Some(producers[key]);
      }
      NewIsExact(producers, library.created, library.closed, list);
      used := library.NewSyncProducer(list, fails);
      if used.Some? {
        producers := producers[key := used.value];
      }
    }

    /** Closes every cached producer, in some order; the first failure is the one reported. */
    method Close(fails: nat -> Option<int>) returns (first: Option<int>)
      requires Valid()
      modifies this, library
      ensures Valid() && Closes(old(Cached()), Cached())
      ensures first == None <==> forall key :: key in old(producers) ==> fails(old(producers)[key]) == None
    {
      hide CacheInv, IsNormal, Join;
      first := None;
      ghost var before, closedBefore := producers, library.closed;
      while producers.Keys != {}
        invariant CacheInv(producers, library.created, library.closed)
        invariant library.created == old(library.created) && closedBefore <= library.closed
        invariant forall key :: key in producers ==> key in before && producers[key] == before[key]
        invariant first == None <==>
          forall key :: key in before && key !in producers ==> fails(before[key]) == None
        decreases producers.Keys
      {
        var key :| key in producers.Keys;
        var handle := producers[key];
        CloseOne(producers, library.created, library.closed, key);
        library.CloseProducer(handle);
        if first.None? {
          first := fails(handle);
        }
        producers := producers - {key};
      }
      NothingCached(library.created, library.closed);
    }
  }

  lemma NothingCached(created: seq<seq<string>>, closed: seq<nat>)
    requires CacheInv(map[], created, closed)
    ensures (forall h: nat :: h in closed <==> h < |created|)
         && (forall i, j :: 0 <= i < j < |closed| ==> closed[i] != closed[j])
  {
    hide Join, IsNormal;
  }

  // ---- runs of Publish and Close -----------------------------------------------------------------

  /** The two calls that take the lock: a Publish looking for its producer, and Close. */
  datatype Call = Fetch(list: seq<string>, fails: bool) | CloseAll

  ghost predicate Step(c: Cache, call: Call, used: Option<nat>, c': Cache) {
    match call
    case Fetch(list, fails) => IsNormal(list) && list != [] && Fetches(c, list, fails, used, c')
    case CloseAll => Closes(c, c')
  }

  /** The calls in the order they got the lock, with the cache before each and after the last, and what each got. */
  ghost predicate IsRun(caches: seq<Cache>, calls: seq<Call>, used: seq<Option<nat>>) {
    && |caches| == |calls| + 1 == |used| + 1
    && CacheInv(caches[0].producers, caches[0].created, caches[0].closed)
    && forall i :: 0 <= i < |calls| ==> Step(caches[i], calls[i], used[i], caches[i + 1])
  }

  lemma StepKeeps(c: Cache, call: Call, used: Option<nat>, c': Cache)
    requires CacheInv(c.producers, c.created, c.closed) && Step(c, call, used, c')
    ensures CacheInv(c'.producers, c'.created, c'.closed) && c.closed <= c'.closed && c.created <= c'.created
    ensures call.Fetch? ==> c'.closed == c.closed
    ensures call.Fetch? && used.Some? ==> used.value < |c'.created| && used.value !in c'.closed
  {
    hide Join, IsNormal;
    if call.CloseAll? {
      assert forall h: nat :: h < |c'.created| ==> c'.created[h] == c.created[h];
    }
  }

  /** From one moment of a run to a later one nothing is reopened, and only Close closes. */
  lemma {:induction false} Between(caches: seq<Cache>, calls: seq<Call>, used: seq<Option<nat>>, i: nat, j: nat)
    requires IsRun(caches, calls, used) && i <= j < |caches|
    ensures CacheInv(caches[j].producers, caches[j].created, caches[j].closed)
    ensures caches[i].closed <= caches[j].closed && caches[i].created <= caches[j].created
    ensures (forall k :: i <= k < j ==> calls[k].Fetch?) ==> caches[j].closed == caches[i].closed
    decreases j
  {
    hide CacheInv, Step;
    if j > 0 {
      Between(caches, calls, used, if i < j then i else j - 1, j - 1);
      StepKeeps(caches[j - 1], calls[j - 1], used[j - 1], caches[j]);
    }
  }

  /**
   * The producer that a Publish got is still open when it sends, after the lock is gone, exactly if no Close
   * took the lock in between.
   */
  lemma OpenAtUseExactly(caches: seq<Cache>, calls: seq<Call>, used: seq<Option<nat>>, i: nat, j: nat)
    requires IsRun(caches, calls, used) && i < j < |caches| && calls[i].Fetch? && used[i].Some?
    ensures used[i].value < |caches[j].created|
    ensures used[i].value !in caches[j].closed <==> forall k :: i < k < j ==> !calls[k].CloseAll?
  {
    hide CacheInv, Fetches;
    Between(caches, calls, used, i, i);
    StepKeeps(caches[i], calls[i], used[i], caches[i + 1]);
    Between(caches, calls, used, i + 1, j);
    if k :| i < k < j && calls[k].CloseAll? {
      Between(caches, calls, used, i + 1, k);
      Between(caches, calls, used, k + 1, j);
      var before, after := caches[k + 1].closed, caches[j].closed;
      assert Closes(caches[k], caches[k + 1]) && used[i].value in before;
      assert before == after[..|before|];
    }
  }

  /** Two open producers were never created for lists with the same key, let alone for the same list. */
  lemma OneLivePerList(producers: map<string, nat>, created: seq<seq<string>>, closed: seq<nat>, g: nat, h: nat)
    requires CacheInv(producers, created, closed) && g < |created| && h < |created| && g !in closed && h !in closed
    ensures Join(created[g]) == Join(created[h]) ==> g == h
  {
  }

  /** A producer is open that was created for another list whose brokers have the same pieces between commas. */
  ghost predicate OpenForAnother(created: seq<seq<string>>, closed: seq<nat>, list: seq<string>) {
    exists h: nat :: h < |created| && h !in closed && IsAnother(created[h], list)
  }

  ghost predicate IsAnother(other: seq<string>, list: seq<string>) {
    other != list && Pieces(other) == Pieces(list)
  }

  /** The cached producer is not the list's own exactly when one is open for another list with the same pieces. */
  lemma UsedIsExact(producers: map<string, nat>, created: seq<seq<string>>, closed: seq<nat>, list: seq<string>)
    requires CacheInv(producers, created, closed) && list != [] && Join(list) in producers
    ensures created[producers[Join(list)]] != list <==> OpenForAnother(created, closed, list)
    ensures AllCommaFree(created) && CommaFree(list) && IsNormal(list) ==> created[producers[Join(list)]] == list
  {
    hide Join, IsNormal, Pieces, CommaFree;
    var used := producers[Join(list)];
    SameJoinExactly(created[used], list);
    assert created[used] != list ==> IsAnother(created[used], list);
    forall h: nat | h < |created| && h !in closed && IsAnother(created[h], list)
      ensures h == used
    {
      SameJoinExactly(created[h], list);
    }
    if AllCommaFree(created) && CommaFree(list) && IsNormal(list) {
      JoinInjective(list, created[used]);
    }
  }

  /** A list without a cached producer has none open for another list with the same pieces either. */
  lemma NewIsExact(producers: map<string, nat>, created: seq<seq<string>>, closed: seq<nat>, list: seq<string>)
    requires CacheInv(producers, created, closed) && list != [] && Join(list) !in producers
    ensures !OpenForAnother(created, closed, list)
  {
    hide Join, IsNormal, Pieces;
    forall h: nat | h < |created| && h !in closed
      ensures !IsAnother(created[h], list)
    {
      SameJoinExactly(created[h], list);
    }
  }

  /** A broker name with a comma in it shares the producer of another list. */
  lemma CommaSharesProducer()
    ensures IsNormal(["a,b"]) && IsNormal(["a", "b"]) && Join(["a,b"]) == Join(["a", "b"])
  {
    assert Join(["a", "b"]) == "a" + "," + Join(["a", "b"][1..]);
    assert ["a", "b"][1..] == ["b"];
    assert !IsSpace('a') && !IsSpace('b');
  }
}
