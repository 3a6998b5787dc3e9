/** Locating a partial's file: `getPartialPath`/`getValidPath` probe every
    candidate directory, and the plugin's `partialPathCache` short-cuts names
    it has resolved before. */
module Resolver {
  import opened Base
  import Partials

  /** What the search needs from outside: `path.join`, whether `fs.access`
      succeeds on a path, and which of several succeeding probes settles
      first (the index `Promise.any` returns; the timing is not modelled). */
  datatype Probe = Probe(
    join: (string, string) -> string,
    fileExists: string -> bool,
    firstSettled: seq<string> -> nat)

  /** The candidate paths `join(dir, file)` whose probe succeeds, in
      directory order. */
  function Existing(dirs: seq<string>, file: string, probe: Probe): (hits: seq<string>)
    ensures forall p :: p in hits ==> probe.fileExists(p)
    ensures forall p :: p in hits ==> exists d :: d in dirs && p == probe.join(d, file)
    ensures forall d :: d in dirs && probe.fileExists(probe.join(d, file)) ==> probe.join(d, file) in hits
    decreases |dirs|
  {
    if dirs == [] then []
    else
      var rest := Existing(dirs[1..], file, probe);
      assert forall d :: d in dirs[1..] ==> d in dirs;
      assert forall d :: d in dirs ==> d == dirs[0] || d in dirs[1..];
      var here := probe.join(dirs[0], file);
      if probe.fileExists(here) then [here] + rest else rest
  }

  /** `getPartialPath(fileName, dirs)`: `Promise.any` over one probe per
      directory. It fails exactly when no candidate exists; otherwise it
      yields one existing candidate, whichever probe settles first, not
      necessarily the first directory. */
  function Search(dirs: seq<string>, file: string, probe: Probe): (r: Option<string>)
    ensures r.Some? <==> exists d :: d in dirs && probe.fileExists(probe.join(d, file))
    ensures r.Some? ==> probe.fileExists(r.value)
    ensures r.Some? ==> exists d :: d in dirs && r.value == probe.join(d, file)
  {
    var hits := Existing(dirs, file, probe);
    if hits == [] then None
    else
      assert hits[0] in hits;
      var k := probe.firstSettled(hits);
      Some(if k < |hits| then hits[k] else hits[0])
  }

  /** The path of one partial: `partialPathCache.get(name) ?? getPartialPath(...)`.
      A cached name takes its cached path without any probe; any other name
      is searched for as `name + extension`. */
  function ResolveEntry(name: string, cache: map<string, string>, dirs: seq<string>,
                        ext: string, probe: Probe): (r: Option<string>)
    ensures name in cache ==> r == Some(cache[name])
    ensures name !in cache ==>
      (r.Some? <==> exists d :: d in dirs && probe.fileExists(probe.join(d, name + ext)))
    ensures name !in cache && r.Some? ==>
      probe.fileExists(r.value) && exists d :: d in dirs && r.value == probe.join(d, name + ext)
  {
    if name in cache then Some(cache[name]) else Search(dirs, name + ext, probe)
  }

  /** One resolution per name-map entry, in map order (`Promise.all` keeps
      that order): cached names take their cached paths, and every other
      entry resolves exactly when one of its candidate files exists, to such
      a file. */
  function ResolveAll(m: Partials.NameMap, cache: map<string, string>, dirs: seq<string>,
                      ext: string, probe: Probe): (rs: seq<Option<string>>)
    ensures |rs| == |m|
    ensures forall k :: 0 <= k < |m| && m[k].name in cache ==> rs[k] == Some(cache[m[k].name])
    ensures forall k :: 0 <= k < |m| && m[k].name !in cache ==>
      (rs[k].Some? <==> exists d :: d in dirs && probe.fileExists(probe.join(d, m[k].name + ext)))
    ensures forall k :: 0 <= k < |m| && m[k].name !in cache && rs[k].Some? ==>
      probe.fileExists(rs[k].value) && exists d :: d in dirs && rs[k].value == probe.join(d, m[k].name + ext)
  {
    seq(|m|, k requires 0 <= k < |m| => ResolveEntry(m[k].name, cache, dirs, ext, probe))
  }

  /** `partialPathCache.set(name, path)` for every entry that resolved. The
      entries that succeed still reach the cache when another entry fails:
      `Promise.all` rejects at the first failure, but the other callbacks run
      to completion. Nothing is removed, and every new value is the path
      resolved for that name. */
  function CacheAfter(cache: map<string, string>, m: Partials.NameMap,
                      rs: seq<Option<string>>): (c: map<string, string>)
    requires |rs| == |m|
    ensures forall n :: n in cache ==> n in c
    ensures forall k :: 0 <= k < |m| && rs[k].Some? ==> m[k].name in c
    ensures forall n :: n in c ==>
      (n in cache && c[n] == cache[n]) || exists k :: 0 <= k < |m| && m[k].name == n && rs[k] == Some(c[n])
    ensures Partials.DistinctNames(m) ==>
      forall k :: 0 <= k < |m| && rs[k].Some? ==> c[m[k].name] == rs[k].value
    decreases |m|
  {
    if m == [] then cache
    else
      var first := if rs[0].Some? then cache[m[0].name := rs[0].value] else cache;
      var c := CacheAfter(first, m[1..], rs[1..]);
      CacheAfterKeeps(cache, m, rs, first, c);
      CacheAfterAdds(cache, m, rs, first, c);
      CacheAfterOrigin(cache, m, rs, first, c);
      CacheAfterValues(cache, m, rs, first, c);
      c
  }

  /** The first entry's update, as `CacheAfter` applies it. */
  predicate FirstUpdate(cache: map<string, string>, m: Partials.NameMap,
                        rs: seq<Option<string>>, first: map<string, string>)
    requires |rs| == |m| > 0
  {
    first == if rs[0].Some? then cache[m[0].name := rs[0].value] else cache
  }

  /** Nothing leaves the cache across one more entry. */
  lemma CacheAfterKeeps(cache: map<string, string>, m: Partials.NameMap, rs: seq<Option<string>>,
                        first: map<string, string>, c: map<string, string>)
    requires |rs| == |m| > 0 && FirstUpdate(cache, m, rs, first)
    requires forall n :: n in first ==> n in c
    ensures forall n :: n in cache ==> n in c
  {
  }

  /** Every resolved name is cached, the first one included. */
  lemma CacheAfterAdds(cache: map<string, string>, m: Partials.NameMap, rs: seq<Option<string>>,
                       first: map<string, string>, c: map<string, string>)
    requires |rs| == |m| > 0 && FirstUpdate(cache, m, rs, first)
    requires forall n :: n in first ==> n in c
    requires forall k :: 0 <= k < |m[1..]| && rs[1..][k].Some? ==> m[1..][k].name in c
    ensures forall k :: 0 <= k < |m| && rs[k].Some? ==> m[k].name in c
  {
    forall k | 0 < k < |m| && rs[k].Some?
      ensures m[k].name in c
    {
      assert m[k] == m[1..][k - 1] && rs[k] == rs[1..][k - 1];
    }
  }

  /** Every value is the old one or a path resolved for that name. */
  lemma CacheAfterOrigin(cache: map<string, string>, m: Partials.NameMap, rs: seq<Option<string>>,
                         first: map<string, string>, c: map<string, string>)
    requires |rs| == |m| > 0 && FirstUpdate(cache, m, rs, first)
    requires forall n :: n in c ==>
      (n in first && c[n] == first[n]) || exists k :: 0 <= k < |m[1..]| && m[1..][k].name == n && rs[1..][k] == Some(c[n])
    ensures forall n :: n in c ==>
      (n in cache && c[n] == cache[n]) || exists k :: 0 <= k < |m| && m[k].name == n && rs[k] == Some(c[n])
  {
    forall n | n in c && !(n in cache && c[n] == cache[n])
      ensures exists k :: 0 <= k < |m| && m[k].name == n && rs[k] == Some(c[n])
    {
      if n in first && c[n] == first[n] {
        assert m[0].name == n && rs[0] == Some(c[n]);
      } else {
        var k :| 0 <= k < |m[1..]| && m[1..][k].name == n && rs[1..][k] == Some(c[n]);
        assert m[k + 1] == m[1..][k] && rs[k + 1] == rs[1..][k];
      }
    }
  }

  /** With distinct names, each resolved name ends up with its own path. */
  lemma CacheAfterValues(cache: map<string, string>, m: Partials.NameMap, rs: seq<Option<string>>,
                         first: map<string, string>, c: map<string, string>)
    requires |rs| == |m| > 0 && FirstUpdate(cache, m, rs, first)
    requires forall n :: n in first ==> n in c
    requires forall k :: 0 <= k < |m[1..]| && rs[1..][k].Some? ==> m[1..][k].name in c
    requires forall k :: 0 <= k < |m| && rs[k].Some? ==> m[k].name in c
    requires forall n :: n in c ==>
      (n in first && c[n] == first[n]) || exists k :: 0 <= k < |m[1..]| && m[1..][k].name == n && rs[1..][k] == Some(c[n])
    requires Partials.DistinctNames(m[1..]) ==>
      forall k :: 0 <= k < |m[1..]| && rs[1..][k].Some? ==> c[m[1..][k].name] == rs[1..][k].value
    ensures Partials.DistinctNames(m) ==>
      forall k :: 0 <= k < |m| && rs[k].Some? ==> c[m[k].name] == rs[k].value
  {
    if Partials.DistinctNames(m) {
      assert Partials.DistinctNames(m[1..]) by {
        forall i, j | 0 <= i < j < |m[1..]|
          ensures m[1..][i].name != m[1..][j].name
        {
          assert m[1..][i] == m[i + 1] && m[1..][j] == m[j + 1];
        }
      }
      forall k | 0 <= k < |m| && rs[k].Some?
        ensures c[m[k].name] == rs[k].value
      {
        if k == 0 {
          assert m[0].name in first;
        } else {
          assert m[k] == m[1..][k - 1] && rs[k] == rs[1..][k - 1];
        }
      }
    }
  }
}
