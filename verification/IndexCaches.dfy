/** The cache of index builds that the server keeps, as a machine whose steps are the bodies of
    its locks: requests, builds that end, and invalidations, in any order. Models IndexCache.cs. */
module IndexCaches {
  import opened Options

  type Key = string
  type BuildId = nat

  const MAX_CACHE_SIZE: nat := 10

  /** How sources are told apart and paths made absolute. */
  datatype Environment = Environment(isGitUrl: string -> bool, fullPath: string -> string)

  function CacheKey(env: Environment, source: string, ref: Option<string>): Key {
    if env.isGitUrl(source) then (if ref.Some? then source + "@" + ref.value else source)
    else env.fullPath(source)
  }

  /** A node of the linked list of keys, most recently requested first. */
  datatype LruNode = LruNode(id: nat, key: Key)

  function WithoutNode(lru: seq<LruNode>, id: nat): seq<LruNode> {
    if lru == [] then []
    else if lru[0].id == id then lru[1..]
    else [lru[0]] + WithoutNode(lru[1..], id)
  }

  function Keys(lru: seq<LruNode>): (keys: seq<Key>)
    ensures |keys| == |lru| && forall i :: 0 <= i < |lru| ==> keys[i] == lru[i].key
  {
    seq(|lru|, i requires 0 <= i < |lru| => lru[i].key)
  }

  function Without(keys: seq<Key>, key: Key): seq<Key> {
    if keys == [] then []
    else if keys[0] == key then keys[1..]
    else [keys[0]] + Without(keys[1..], key)
  }

  ghost predicate NodeOk(tasks: map<Key, BuildId>, nodes: map<Key, nat>, lru: seq<LruNode>, i: nat) {
    i < |lru| ==> lru[i].key in tasks && lru[i].key in nodes && nodes[lru[i].key] == lru[i].id
  }

  /** Is the key somewhere in the list? */
  ghost predicate Listed(lru: seq<LruNode>, key: Key) {
    exists i :: 0 <= i < |lru| && lru[i].key == key
  }

  ghost predicate KeyOk(tasks: map<Key, BuildId>, nodes: map<Key, nat>, lru: seq<LruNode>, key: Key) {
    && (key in tasks <==> key in nodes) && (key in tasks <==> Listed(lru, key))
  }

  ghost predicate DistinctNodes(lru: seq<LruNode>, limit: nat) {
    && (forall i, j :: 0 <= i < j < |lru| ==> lru[i].key != lru[j].key && lru[i].id != lru[j].id)
    && forall i :: 0 <= i < |lru| ==> lru[i].id < limit
  }

  /** The three structures hold the same keys, once each. */
  ghost predicate SameKeys(tasks: map<Key, BuildId>, nodes: map<Key, nat>, lru: seq<LruNode>, limit: nat) {
    && DistinctNodes(lru, limit)
    && (forall i: nat {:trigger NodeOk(tasks, nodes, lru, i)} :: NodeOk(tasks, nodes, lru, i))
    && (forall key {:trigger KeyOk(tasks, nodes, lru, key)} :: KeyOk(tasks, nodes, lru, key))
    && |tasks| == |lru|
  }

  lemma OneMore(tasks: map<Key, BuildId>, key: Key, build: BuildId)
    requires key !in tasks
    ensures |tasks[key := build]| == |tasks| + 1
  {
    assert tasks[key := build].Keys == tasks.Keys + {key};
  }

  ghost predicate RequestedAt(keys: seq<Key>, requested: map<Key, nat>, clock: nat, i: nat) {
    i < |keys| ==> keys[i] in requested && requested[keys[i]] < clock
  }

  ghost predicate RequestedInOrder(keys: seq<Key>, requested: map<Key, nat>, i: nat, j: nat) {
    i < j < |keys| && keys[i] in requested && keys[j] in requested ==> requested[keys[i]] > requested[keys[j]]
  }

  /** Keys requested later stand before those requested earlier. */
  ghost predicate ByLastRequest(keys: seq<Key>, requested: map<Key, nat>, clock: nat) {
    && (forall i: nat {:trigger RequestedAt(keys, requested, clock, i)} :: RequestedAt(keys, requested, clock, i))
    && forall i: nat, j: nat {:trigger RequestedInOrder(keys, requested, i, j)} ::
      RequestedInOrder(keys, requested, i, j)
  }

  lemma OrderWithout(keys: seq<Key>, requested: map<Key, nat>, clock: nat, k: nat)
    requires ByLastRequest(keys, requested, clock) && k < |keys|
    ensures ByLastRequest(keys[..k] + keys[k + 1..], requested, clock)
  {
    var rest := keys[..k] + keys[k + 1..];
    assert forall i :: 0 <= i < |rest| ==> rest[i] == keys[if i < k then i else i + 1];
    forall i: nat
      ensures RequestedAt(rest, requested, clock, i)
    {
      assert RequestedAt(keys, requested, clock, if i < k then i else i + 1);
    }
    forall i: nat, j: nat
      ensures RequestedInOrder(rest, requested, i, j)
    {
      assert RequestedInOrder(keys, requested, if i < k then i else i + 1, if j < k then j else j + 1);
    }
  }

  lemma OrderWith(keys: seq<Key>, requested: map<Key, nat>, clock: nat, key: Key)
    requires ByLastRequest(keys, requested, clock) && key !in keys
    ensures ByLastRequest([key] + keys, requested[key := clock], clock + 1)
  {
    var longer, requested', clock' := [key] + keys, requested[key := clock], clock + 1;
    assert forall i :: 0 < i < |longer| ==> longer[i] == keys[i - 1] != key;
    forall i: nat
      ensures RequestedAt(longer, requested', clock', i)
    {
      assert i > 0 ==> RequestedAt(keys, requested, clock, i - 1);
    }
    forall i: nat, j: nat
      ensures RequestedInOrder(longer, requested', i, j)
    {
      assert j > 0 ==> RequestedAt(keys, requested, clock, j - 1);
      assert i > 0 && j > 0 ==> RequestedInOrder(keys, requested, i - 1, j - 1);
    }
  }

  /** The last key was requested before all others. */
  lemma LastIsOldest(keys: seq<Key>, requested: map<Key, nat>, clock: nat, i: nat)
    requires ByLastRequest(keys, requested, clock) && i + 1 < |keys|
    ensures keys[|keys| - 1] in requested && keys[i] in requested
    ensures requested[keys[|keys| - 1]] < requested[keys[i]]
  {
    assert RequestedAt(keys, requested, clock, |keys| - 1) && RequestedAt(keys, requested, clock, i);
    assert RequestedInOrder(keys, requested, i, |keys| - 1);
  }

  lemma {:induction false} WithoutNodeAt(lru: seq<LruNode>, k: nat, limit: nat)
    requires DistinctNodes(lru, limit) && k < |lru|
    ensures WithoutNode(lru, lru[k].id) == lru[..k] + lru[k + 1..]
    ensures Keys(WithoutNode(lru, lru[k].id)) == Without(Keys(lru), lru[k].key)
    decreases |lru|
  {
    assert Keys(lru)[1..] == Keys(lru[1..]);
    if k > 0 {
      WithoutNodeAt(lru[1..], k - 1, limit);
      assert lru[1..][k - 1] == lru[k];
      assert Keys([lru[0]] + WithoutNode(lru[1..], lru[k].id)) == [lru[0].key] + Keys(WithoutNode(lru[1..], lru[k].id));
    }
  }

  lemma NodeOfKey(tasks: map<Key, BuildId>, nodes: map<Key, nat>, lru: seq<LruNode>, limit: nat, key: Key)
    returns (k: nat)
    requires SameKeys(tasks, nodes, lru, limit) && key in tasks
    ensures key in nodes && k < |lru| && lru[k] == LruNode(nodes[key], key)
  {
    assert KeyOk(tasks, nodes, lru, key);
    k :| 0 <= k < |lru| && lru[k].key == key;
    assert NodeOk(tasks, nodes, lru, k);
  }

  lemma NodesWithout(lru: seq<LruNode>, limit: nat, k: nat)
    requires DistinctNodes(lru, limit) && k < |lru|
    ensures DistinctNodes(lru[..k] + lru[k + 1..], limit) && !Listed(lru[..k] + lru[k + 1..], lru[k].key)
    ensures forall other :: other != lru[k].key ==> (Listed(lru, other) <==> Listed(lru[..k] + lru[k + 1..], other))
  {
    var rest := lru[..k] + lru[k + 1..];
    assert forall i :: 0 <= i < |rest| ==> rest[i] == lru[if i < k then i else i + 1];
    forall other | other != lru[k].key
      ensures Listed(lru, other) <==> Listed(rest, other)
    {
      if Listed(lru, other) {
        var j :| 0 <= j < |lru| && lru[j].key == other;
        assert rest[if j < k then j else j - 1].key == other;
      }
    }
  }

  lemma MapsWithout(tasks: map<Key, BuildId>, nodes: map<Key, nat>, lru: seq<LruNode>, limit: nat, k: nat)
    requires SameKeys(tasks, nodes, lru, limit) && k < |lru|
    ensures SameKeys(tasks - {lru[k].key}, nodes - {lru[k].key}, lru[..k] + lru[k + 1..], limit)
  {
    var key := lru[k].key;
    var lru', tasks', nodes' := lru[..k] + lru[k + 1..], tasks - {key}, nodes - {key};
    NodesWithout(lru, limit, k);
    assert NodeOk(tasks, nodes, lru, k);
    forall i: nat
      ensures NodeOk(tasks', nodes', lru', i)
    {
      assert NodeOk(tasks, nodes, lru, if i < k then i else i + 1);
      assert i < |lru'| ==> lru'[i] == lru[if i < k then i else i + 1];
    }
    forall other
      ensures KeyOk(tasks', nodes', lru', other)
    {
      assert KeyOk(tasks, nodes, lru, other);
    }
    assert tasks.Keys == tasks'.Keys + {key};
  }

  /** Taking a key out of all three structures. */
  lemma RemovedKey(tasks: map<Key, BuildId>, nodes: map<Key, nat>, lru: seq<LruNode>, limit: nat, key: Key)
    returns (k: nat)
    requires SameKeys(tasks, nodes, lru, limit) && key in tasks
    ensures key in nodes && k < |lru| && lru[k].key == key && WithoutNode(lru, nodes[key]) == lru[..k] + lru[k + 1..]
    ensures SameKeys(tasks - {key}, nodes - {key}, WithoutNode(lru, nodes[key]), limit)
    ensures Keys(WithoutNode(lru, nodes[key])) == Without(Keys(lru), key) == Keys(lru)[..k] + Keys(lru)[k + 1..]
    ensures key !in Keys(WithoutNode(lru, nodes[key]))
  {
    k := NodeOfKey(tasks, nodes, lru, limit, key);
    WithoutNodeAt(lru, k, limit);
    NodesWithout(lru, limit, k);
    MapsWithout(tasks, nodes, lru, limit, k);
    var lru' := lru[..k] + lru[k + 1..];
    assert Keys(lru') == Keys(lru)[..k] + Keys(lru)[k + 1..];
    assert key in Keys(lru') ==> Listed(lru', key);
  }

  lemma NodesWith(lru: seq<LruNode>, limit: nat, key: Key)
    requires DistinctNodes(lru, limit) && !Listed(lru, key)
    ensures DistinctNodes([LruNode(limit, key)] + lru, limit + 1)
    ensures forall other :: Listed([LruNode(limit, key)] + lru, other) <==> other == key || Listed(lru, other)
  {
    var lru' := [LruNode(limit, key)] + lru;
    assert lru'[0].key == key && forall i :: 0 < i < |lru'| ==> lru'[i] == lru[i - 1];
    forall other
      ensures Listed(lru', other) <==> other == key || Listed(lru, other)
    {
      if Listed(lru, other) {
        var j :| 0 <= j < |lru| && lru[j].key == other;
        assert lru'[j + 1].key == other;
      }
    }
  }

  /** Putting a new key in front. */
  lemma AddedKey(tasks: map<Key, BuildId>, nodes: map<Key, nat>, lru: seq<LruNode>, limit: nat, key: Key,
                 build: BuildId)
    requires SameKeys(tasks, nodes, lru, limit) && key !in tasks
    ensures SameKeys(tasks[key := build], nodes[key := limit], [LruNode(limit, key)] + lru, limit + 1)
    ensures Keys([LruNode(limit, key)] + lru) == [key] + Keys(lru) && key !in Keys(lru)
  {
    assert KeyOk(tasks, nodes, lru, key);
    NodesWith(lru, limit, key);
    var lru', tasks', nodes' := [LruNode(limit, key)] + lru, tasks[key := build], nodes[key := limit];
    forall i: nat
      ensures NodeOk(tasks', nodes', lru', i)
    {
      assert i > 0 ==> NodeOk(tasks, nodes, lru, i - 1);
      assert 0 < i < |lru'| ==> lru'[i] == lru[i - 1];
    }
    forall other
      ensures KeyOk(tasks', nodes', lru', other)
    {
      assert KeyOk(tasks, nodes, lru, other);
    }
    OneMore(tasks, key, build);
    assert key in Keys(lru) ==> Listed(lru, key);
  }

  /** Moving a key to the front. */
  lemma TouchedKey(tasks: map<Key, BuildId>, nodes: map<Key, nat>, lru: seq<LruNode>, limit: nat,
                   requested: map<Key, nat>, clock: nat, key: Key)
    requires SameKeys(tasks, nodes, lru, limit) && ByLastRequest(Keys(lru), requested, clock) && key in tasks
    ensures key in nodes
    ensures var lru' := [LruNode(limit, key)] + WithoutNode(lru, nodes[key]);
            && SameKeys(tasks, nodes[key := limit], lru', limit + 1)
            && Keys(lru') == [key] + Without(Keys(lru), key)
            && ByLastRequest(Keys(lru'), requested[key := clock], clock + 1)
  {
    var k := RemovedKey(tasks, nodes, lru, limit, key);
    OrderWithout(Keys(lru), requested, clock, k);
    AddedKey(tasks - {key}, nodes - {key}, WithoutNode(lru, nodes[key]), limit, key, tasks[key]);
    OrderWith(Without(Keys(lru), key), requested, clock, key);
    assert (tasks - {key})[key := tasks[key]] == tasks;
    assert (nodes - {key})[key := limit] == nodes[key := limit];
  }

  /** Every cached build was started for its key. */
  ghost predicate BuildsOk(tasks: map<Key, BuildId>, builds: map<BuildId, Key>, limit: BuildId) {
    && (forall b :: b in builds ==> b < limit)
    && forall key :: key in tasks ==> tasks[key] in builds && builds[tasks[key]] == key
  }

  lemma BuildStarted(tasks: map<Key, BuildId>, builds: map<BuildId, Key>, limit: BuildId, key: Key)
    requires BuildsOk(tasks, builds, limit) && key !in tasks
    ensures BuildsOk(tasks[key := limit], builds[limit := key], limit + 1) && limit !in builds
    ensures |tasks[key := limit]| == |tasks| + 1
  {
    OneMore(tasks, key, limit);
  }

  class IndexCache {
    const env: Environment
    var tasks: map<Key, BuildId>
    var lru: seq<LruNode>
    var lruNodes: map<Key, nat>
    /** Fresh identities for list nodes and builds. */
    var nextNode: nat
    var nextBuild: BuildId
    /** The key that each build was started for, and when each key was last requested. */
    ghost var builds: map<BuildId, Key>
    ghost var requested: map<Key, nat>
    ghost var clock: nat

    ghost predicate Valid()
      reads this
    {
      && SameKeys(tasks, lruNodes, lru, nextNode) && ByLastRequest(Keys(lru), requested, clock)
      && |tasks| <= MAX_CACHE_SIZE
      && BuildsOk(tasks, builds, nextBuild)
    }

    /** The cached keys, most recently requested first. */
    ghost function Recent(): seq<Key>
      reads this
    {
      Keys(lru)
    }

    constructor (env: Environment)
      ensures Valid() && tasks == map[] && Recent() == [] && this.env == env
    {
      this.env := env;
      tasks, lru, lruNodes, nextNode, nextBuild := map[], [], map[], 0, 0;
      builds, requested, clock := map[], map[], 0;
      new;
      assert SameKeys(tasks, lruNodes, lru, nextNode) by {
        forall key
          ensures KeyOk(tasks, lruNodes, lru, key)
        {
        }
      }
    }

    /** The build for a source: the cached one, or a new one, for which the least recently
        requested build has to go if the cache is full. */
    method Get(source: string, ref: Option<string>) returns (build: BuildId, ghost key: Key)
      requires Valid()
      modifies this
      ensures Valid() && key == CacheKey(env, source, ref) && key in tasks && tasks[key] == build
      ensures requested == old(requested)[key := old(clock)]
      ensures key in old(tasks) ==>
                tasks == old(tasks) && builds == old(builds) && Recent() == [key] + Without(old(Recent()), key)
      ensures key !in old(tasks) ==> build !in old(builds) && builds == old(builds)[build := key]
      ensures key !in old(tasks) && |old(tasks)| < MAX_CACHE_SIZE ==>
                tasks == old(tasks)[key := build] && Recent() == [key] + old(Recent())
      ensures key !in old(tasks) && |old(tasks)| >= MAX_CACHE_SIZE ==>
                && old(Recent()) != []
                && var n := |old(Recent())| - 1;
                   var victim := old(Recent())[n];
                && tasks == (old(tasks) - {victim})[key := build] && Recent() == [key] + old(Recent())[..n]
                && victim in old(requested)
                && forall other :: other in old(tasks) && other != victim ==>
                     other in old(requested) && old(requested)[victim] < old(requested)[other]
    {
      var cacheKey := CacheKey(env, source, ref);
      key := cacheKey;
      if cacheKey in tasks {
        build := tasks[cacheKey];
        Touch(cacheKey);
        return;
      }
      if |tasks| >= MAX_CACHE_SIZE {
        EvictLast();
      }
      build := Start(cacheKey);
    }

    /** Starts a build and caches it under a key that is not there. */
    method Start(key: Key) returns (build: BuildId)
      requires Valid() && key !in tasks && |tasks| < MAX_CACHE_SIZE
      modifies this
      ensures Valid() && build !in old(builds) && builds == old(builds)[build := key]
      ensures tasks == old(tasks)[key := build] && Recent() == [key] + old(Recent())
      ensures requested == old(requested)[key := old(clock)]
    {
      build := nextBuild;
      AddedKey(tasks, lruNodes, lru, nextNode, key, build);
      OrderWith(Keys(lru), requested, clock, key);
      BuildStarted(tasks, builds, nextBuild, key);
      nextBuild := nextBuild + 1;
      tasks := tasks[key := build];
      PushFront(key);
      builds := builds[build := key];
    }

    /** Puts the key's node in front of the list. */
    method PushFront(key: Key)
      modifies this`lru, this`lruNodes, this`nextNode, this`requested, this`clock
      ensures lru == [LruNode(old(nextNode), key)] + old(lru) && lruNodes == old(lruNodes)[key := old(nextNode)]
      ensures nextNode == old(nextNode) + 1 && requested == old(requested)[key := old(clock)] && clock == old(clock) + 1
    {
      lru := [LruNode(nextNode, key)] + lru;
      lruNodes := lruNodes[key := nextNode];
      nextNode := nextNode + 1;
      requested, clock := requested[key := clock], clock + 1;
    }

    /** Moves a cached key to the front. */
    method Touch(key: Key)
      requires Valid() && key in tasks
      modifies this`lru, this`lruNodes, this`nextNode, this`requested, this`clock
      ensures Valid() && Recent() == [key] + Without(old(Recent()), key)
      ensures requested == old(requested)[key := old(clock)] && clock == old(clock) + 1
    {
      TouchedKey(tasks, lruNodes, lru, nextNode, requested, clock, key);
      lru := WithoutNode(lru, lruNodes[key]);
      PushFront(key);
    }

    /** Drops the least recently requested key. */
    method EvictLast()
      requires Valid() && |tasks| > 0
      modifies this`lru, this`lruNodes, this`tasks
      ensures Valid() && old(Recent()) != []
      ensures var n := |old(Recent())| - 1;
              var victim := old(Recent())[n];
              && tasks == old(tasks) - {victim} && |tasks| == |old(tasks)| - 1 && Recent() == old(Recent())[..n]
              && victim in old(tasks) && victim in requested
              && forall other :: other in old(tasks) && other != victim ==>
                   other in requested && requested[victim] < requested[other]
    {
      var n := |lru| - 1;
      var key := lru[n].key;
      assert NodeOk(tasks, lruNodes, lru, n);
      ghost var k := RemovedKey(tasks, lruNodes, lru, nextNode, key);
      OrderWithout(Keys(lru), requested, clock, k);
      assert RequestedAt(Keys(lru), requested, clock, n);
      forall other | other in tasks && other != key
        ensures other in requested && requested[key] < requested[other]
      {
        var j := NodeOfKey(tasks, lruNodes, lru, nextNode, other);
        LastIsOldest(Keys(lru), requested, clock, j);
      }
      assert lru[..n] == WithoutNode(lru, lruNodes[key]);
      assert tasks.Keys == (tasks - {key}).Keys + {key};
      lru := lru[..n];
      lruNodes := lruNodes - {key};
      tasks := tasks - {key};
    }

    /** A build that started earlier fails. It is dropped if it is still the one in the cache;
        a newer build of the same key stays. */
    method Fail(build: BuildId, key: Key)
      requires Valid() && build in builds && builds[build] == key
      modifies this`lru, this`lruNodes, this`tasks
      ensures Valid()
      ensures if key in old(tasks) && old(tasks)[key] == build
              then tasks == old(tasks) - {key} && Recent() == Without(old(Recent()), key)
              else tasks == old(tasks) && Recent() == old(Recent())
      ensures forall other :: other in old(tasks) && old(tasks)[other] != build ==>
                other in tasks && tasks[other] == old(tasks)[other]
      ensures forall other :: other in tasks ==> tasks[other] != build
    {
      if key in tasks && tasks[key] == build {
        Drop(key);
      }
    }

    /** A build that ends well stays where it is. */
    method Complete(build: BuildId)
      requires Valid() && build in builds
      ensures Valid()
    {
    }

    /** Forgets what is cached for a source without a revision. */
    method Invalidate(source: string)
      requires Valid()
      modifies this`lru, this`lruNodes, this`tasks
      ensures Valid()
      ensures var key := CacheKey(env, source, None);
              && tasks == old(tasks) - {key} && key !in tasks
              && Recent() == if key in old(tasks) then Without(old(Recent()), key) else old(Recent())
    {
      var cacheKey := if env.isGitUrl(source) then source else env.fullPath(source);
      if cacheKey in tasks {
        Drop(cacheKey);
      }
    }

    method Drop(key: Key)
      requires Valid() && key in tasks
      modifies this`lru, this`lruNodes, this`tasks
      ensures Valid() && tasks == old(tasks) - {key} && Recent() == Without(old(Recent()), key)
    {
      ghost var k := RemovedKey(tasks, lruNodes, lru, nextNode, key);
      OrderWithout(Keys(lru), requested, clock, k);
      lru := WithoutNode(lru, lruNodes[key]);
      lruNodes := lruNodes - {key};
      tasks := tasks - {key};
    }
  }

  /** What an invalidation reaches: the next request builds anew unless it names a revision of a
      repository, whose entry has a key of its own. */
  lemma InvalidationReaches(env: Environment, source: string, ref: Option<string>)
    ensures CacheKey(env, source, ref) == CacheKey(env, source, None) <==> ref.None? || !env.isGitUrl(source)
  {
    if ref.Some? && env.isGitUrl(source) {
      assert |source + "@" + ref.value| > |source|;
    }
  }

  /** `longer` goes on where `shorter` has an at sign and its revision begins: the two name one
      repository to the cache if `middle` is what comes between. */
  ghost predicate Continues(shorter: string, ref: string, longer: string, longerRef: string) {
    exists middle :: longer == shorter + "@" + middle && ref == middle + "@" + longerRef
  }

  lemma SplitDiffers(a: string, r: string, b: string, s: string)
    requires a + "@" + r == b + "@" + s && |a| < |b|
    ensures Continues(a, r, b, s)
  {
    var key := a + "@" + r;
    var middle := b[|a| + 1..];
    assert forall i :: 0 <= i < |b| ==> b[i] == (b + "@" + s)[i];
    assert b == key[..|b|];
    assert b[..|a|] == a && b[|a|] == '@' && b == b[..|a|] + [b[|a|]] + middle;
    assert r == key[|a| + 1..];
    assert s == key[|b| + 1..] && key[|b|] == '@';
    assert r == key[|a| + 1..|b|] + [key[|b|]] + key[|b| + 1..];
    assert b == a + "@" + middle && r == middle + "@" + s;
  }

  lemma ContinuesShares(a: string, r: string, b: string, s: string)
    requires Continues(a, r, b, s)
    ensures a + "@" + r == b + "@" + s
  {
    var middle :| b == a + "@" + middle && r == middle + "@" + s;
    assert a + "@" + (middle + "@" + s) == a + "@" + middle + "@" + s;
  }

  /** Two requests for repositories share a build exactly if they name the same source and revision,
      or an at sign in a source or a revision makes two different splits of one key. */
  lemma SameKeyIff(env: Environment, a: string, r: Option<string>, b: string, s: Option<string>)
    requires env.isGitUrl(a) && env.isGitUrl(b)
    ensures CacheKey(env, a, r) == CacheKey(env, b, s) <==>
              || (a == b && r == s)
              || (r.None? && s.Some? && a == b + "@" + s.value)
              || (r.Some? && s.None? && b == a + "@" + r.value)
              || (r.Some? && s.Some? && (Continues(a, r.value, b, s.value) || Continues(b, s.value, a, r.value)))
  {
    if r.Some? && s.Some? && a + "@" + r.value == b + "@" + s.value {
      if |a| < |b| {
        SplitDiffers(a, r.value, b, s.value);
      } else if |b| < |a| {
        SplitDiffers(b, s.value, a, r.value);
      } else {
        var key := a + "@" + r.value;
        assert a == key[..|a|] && r.value == key[|a| + 1..];
        assert b == (b + "@" + s.value)[..|b|] && s.value == (b + "@" + s.value)[|b| + 1..];
      }
    }
    if r.Some? && s.Some? && Continues(a, r.value, b, s.value) {
      ContinuesShares(a, r.value, b, s.value);
    }
    if r.Some? && s.Some? && Continues(b, s.value, a, r.value) {
      ContinuesShares(b, s.value, a, r.value);
    }
  }
}
