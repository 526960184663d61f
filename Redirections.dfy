/**
 * The redirection table: the list of redirections the CMS returns becomes a
 * map keyed by a normalised origin path (lower-cased, "~/" made "/", scheme
 * and host dropped), and destinations written "~/…" lose their '~' in place.
 */
module Redirections {
  import opened Wrappers
  import opened Strings

  /** One redirection as the CMS returns it; only the destination is rewritten afterwards. */
  class Redirection {
    const id: int
    const originUrl: string
    var destinationUrl: string
    const statusCode: int

    constructor (id: int, originUrl: string, destinationUrl: string, statusCode: int)
      ensures this.id == id && this.originUrl == originUrl
      ensures this.destinationUrl == destinationUrl && this.statusCode == statusCode
    {
      this.id := id;
      this.originUrl := originUrl;
      this.destinationUrl := destinationUrl;
      this.statusCode := statusCode;
    }
  }

  /** What `getUrlRedirections` gives back: a reply, or a thrown error. */
  datatype ServerReply =
    | Threw
    | Replied(lastAccessDate: string, isUpToDate: bool, items: seq<Redirection>)

  /** The result of the lookup: the table and the server's bookkeeping fields. */
  datatype RedirectionsMap = RedirectionsMap(lastAccessDate: string, isUpToDate: bool, items: map<string, Redirection>)

  /** "~/x" becomes "/x"; anything else is kept. */
  function StripTilde(s: string): (r: string)
    ensures r == s <==> !StartsWith(s, "~/")
  {
    if StartsWith(s, "~/") then s[1..] else s
  }

  /** Drops "scheme://host" from a key that has a '/' after its first "://"; other keys are kept. */
  function StripHost(key: string): (r: string)
    ensures r == key || (Includes(key, "://") && StartsWith(r, "/"))
  {
    match IndexOf(key, "://")
    case None => key
    case Some(i) =>
      match IndexOfFrom(key, "/", i + 3)
      case None => key
      case Some(j) =>
        assert key[j..][..1] == key[j..j + 1];
        key[j..]
  }

  /** The map key of a redirection with origin `originUrl`. */
  function NormalizeKey(originUrl: string): (key: string)
    ensures IsLower(key)
  {
    var lower := ToLower(originUrl);
    var t := StripTilde(lower);
    ToLowerIdempotent(originUrl);
    StripTildeSuffix(lower);
    LowerSuffix(lower, t);
    StripHostSuffix(t);
    LowerSuffix(t, StripHost(t));
    StripHost(t)
  }

  /** The normalised key of each listed redirection, in list order. */
  function Keys(items: seq<Redirection>): (keys: seq<string>)
    ensures |keys| == |items|
    ensures forall i :: 0 <= i < |items| ==> keys[i] == NormalizeKey(items[i].originUrl)
  {
    seq(|items|, i requires 0 <= i < |items| => NormalizeKey(items[i].originUrl))
  }

  /** Assigning `values[i]` under `keys[i]`, for i in order, into an empty dictionary. */
  function Table<K, V>(keys: seq<K>, values: seq<V>): map<K, V>
    requires |keys| == |values|
  {
    if keys == [] then map[]
    else
      var n := |keys| - 1;
      Table(keys[..n], values[..n])[keys[n] := values[n]]
  }

  /** The table built from `items` in order: a later redirection replaces an earlier one with the same key. */
  function KeyMap(items: seq<Redirection>): (m: map<string, Redirection>)
    ensures |m| <= |items|
  {
    TableSize(Keys(items), items);
    Table(Keys(items), items)
  }

  /** Each assignment adds at most one entry. */
  lemma {:induction false} TableSize<K, V>(keys: seq<K>, values: seq<V>)
    requires |keys| == |values|
    ensures |Table(keys, values)| <= |keys|
  {
    if keys != [] {
      var n := |keys| - 1;
      TableSize(keys[..n], values[..n]);
    }
  }

  /**
   * `getRedirections`. The reply (or the error) of the CMS call is the input
   * `reply`, the current time as an ISO string is `now`. Unless the reply is
   * up to date and no update is forced, every listed redirection is entered
   * under its normalised key and its "~/" destination is rewritten in place.
   */
  method GetRedirections(reply: ServerReply, forceUpdate: bool, now: string) returns (r: RedirectionsMap)
    modifies if reply.Replied? then set k | 0 <= k < |reply.items| :: reply.items[k] else {}
    ensures reply.Threw? ==> r == RedirectionsMap(now, false, map[])
    ensures reply.Replied? && reply.isUpToDate && !forceUpdate ==>
      r == RedirectionsMap(reply.lastAccessDate, true, map[])
      && forall k :: 0 <= k < |reply.items| ==> reply.items[k].destinationUrl == old(reply.items[k].destinationUrl)
    ensures reply.Replied? && (!reply.isUpToDate || forceUpdate) ==>
      r == RedirectionsMap(reply.lastAccessDate, reply.isUpToDate, KeyMap(reply.items))
      && forall k :: 0 <= k < |reply.items| ==> reply.items[k].destinationUrl == StripTilde(old(reply.items[k].destinationUrl))
  {
    if reply.Threw? {
      return RedirectionsMap(now, false, map[]);
    }
    var items := reply.items;
    if reply.isUpToDate && !forceUpdate {
      return RedirectionsMap(reply.lastAccessDate, reply.isUpToDate, map[]);
    }
    var table := EnterAll(items);
    return RedirectionsMap(reply.lastAccessDate, reply.isUpToDate, table);
  }

  /** The `forEach` over the reply's list: enter each redirection under its key, rewriting its destination in place. */
  method EnterAll(items: seq<Redirection>) returns (table: map<string, Redirection>)
    modifies set k | 0 <= k < |items| :: items[k]
    ensures table == KeyMap(items)
    ensures forall k :: 0 <= k < |items| ==> items[k].destinationUrl == StripTilde(old(items[k].destinationUrl))
  {
    table := map[];
    ghost var before := Destinations(items);
    var i := 0;
    while i < |items|
      invariant 0 <= i <= |items|
      invariant table == KeyMap(items[..i])
      invariant forall k :: 0 <= k < |items| ==>
        items[k].destinationUrl == before[k] || items[k].destinationUrl == StripTilde(before[k])
      invariant forall k :: 0 <= k < i ==> items[k].destinationUrl == StripTilde(before[k])
    {
      KeyMapStep(items, i);
      table := EnterAt(items, i, table, before);
      i := i + 1;
    }
    assert items[..i] == items;
  }

  /**
   * The `forEach` callback for the `i`th redirection: enter it under its key
   * and rewrite its destination in place. An object listed twice is rewritten
   * twice, which stripping once already covers.
   */
  method EnterAt(items: seq<Redirection>, i: nat, table: map<string, Redirection>, ghost before: seq<string>)
    returns (next: map<string, Redirection>)
    requires i < |items| == |before|
    requires forall k :: 0 <= k < |items| ==>
      items[k].destinationUrl == before[k] || items[k].destinationUrl == StripTilde(before[k])
    requires forall k :: 0 <= k < i ==> items[k].destinationUrl == StripTilde(before[k])
    modifies items[i]
    ensures next == table[NormalizeKey(items[i].originUrl) := items[i]]
    ensures forall k :: 0 <= k < |items| ==>
      items[k].destinationUrl == before[k] || items[k].destinationUrl == StripTilde(before[k])
    ensures forall k :: 0 <= k <= i ==> items[k].destinationUrl == StripTilde(before[k])
  {
    var redirection := items[i];
    var key := OriginKey(redirection.originUrl);
    next := table[key := redirection];
    RewriteDestination(redirection);
    forall k | 0 <= k < |items|
      ensures items[k].destinationUrl == StripTilde(before[k]) || (k > i && items[k].destinationUrl == before[k])
    {
      if items[k] != redirection {
        assert items[k].destinationUrl == old(items[k].destinationUrl);
      } else {
        StripTildeIdempotent(before[k]);
      }
    }
  }

  /** The destinations of `items`, in list order. */
  function Destinations(items: seq<Redirection>): (d: seq<string>)
    reads set k | 0 <= k < |items| :: items[k]
    ensures |d| == |items| && forall k :: 0 <= k < |items| ==> d[k] == items[k].destinationUrl
  {
    seq(|items|, k requires 0 <= k < |items| reads set j | 0 <= j < |items| :: items[j] => items[k].destinationUrl)
  }

  /** A destination written "~/…" loses its '~', in place. */
  method RewriteDestination(redirection: Redirection)
    modifies redirection
    ensures redirection.destinationUrl == StripTilde(old(redirection.destinationUrl))
  {
    if StartsWith(redirection.destinationUrl, "~/") {
      redirection.destinationUrl := redirection.destinationUrl[1..];
    }
  }

  /** The key of one origin, reassigned step by step: lower-case, then "~/" to "/", then drop scheme and host. */
  method OriginKey(originUrl: string) returns (key: string)
    ensures key == NormalizeKey(originUrl)
  {
    key := ToLower(originUrl);
    if StartsWith(key, "~/") {
      key := key[1..];
    }
    var scheme := IndexOf(key, "://");
    if scheme.Some? {
      var hostIndex := IndexOfFrom(key, "/", scheme.value + 3);
      if hostIndex.Some? {
        key := key[hostIndex.value..];
      }
    }
  }

  /** Entering one more redirection into the table built from the ones before it. */
  lemma KeyMapStep(items: seq<Redirection>, i: nat)
    requires i < |items|
    ensures KeyMap(items[..i + 1]) == KeyMap(items[..i])[NormalizeKey(items[i].originUrl) := items[i]]
  {
    var keys := Keys(items[..i + 1]);
    assert keys[..i] == Keys(items[..i]);
    assert items[..i + 1][..i] == items[..i];
    TableStep(keys, items[..i + 1], i);
  }

  /** One more assignment into the table. */
  lemma TableStep<K, V>(keys: seq<K>, values: seq<V>, i: nat)
    requires |keys| == |values| && i < |keys|
    ensures Table(keys[..i + 1], values[..i + 1]) == Table(keys[..i], values[..i])[keys[i] := values[i]]
  {
    assert keys[..i + 1][..i] == keys[..i];
    assert values[..i + 1][..i] == values[..i];
  }

  /** A destination stripped once has nothing left to strip, so rewriting an already rewritten entry changes nothing. */
  lemma StripTildeIdempotent(s: string)
    ensures StripTilde(StripTilde(s)) == StripTilde(s)
    ensures StartsWith(s, "~/") ==> StartsWith(StripTilde(s), "/") && s == "~" + StripTilde(s)
    ensures !StartsWith(s, "~/") ==> StripTilde(s) == s
  {
    if StartsWith(s, "~/") {
      assert s[1..][..1] == "/";
      assert !StartsWith(s[1..], "~/") by {
        assert s[1..][0] == '/';
      }
      assert s[..1] == "~";
      assert s == s[..1] + s[1..];
    }
  }

  /** Stripping the tilde keeps a suffix. */
  lemma StripTildeSuffix(s: string)
    ensures EndsWith(s, StripTilde(s))
  {
    if StartsWith(s, "~/") {
      assert s[|s| - |s[1..]|..] == s[1..];
    }
  }

  /** Dropping scheme and host keeps a suffix. */
  lemma StripHostSuffix(key: string)
    ensures EndsWith(key, StripHost(key))
  {
    match IndexOf(key, "://")
    case None =>
    case Some(i) =>
      match IndexOfFrom(key, "/", i + 3)
      case None =>
      case Some(j) => assert key[|key| - |key[j..]|..] == key[j..];
  }

  /** A suffix of a string with no upper-case letter has none either. */
  lemma LowerSuffix(s: string, t: string)
    requires IsLower(s) && EndsWith(s, t)
    ensures IsLower(t)
  {
    forall n | 0 <= n < |t| ensures !('A' <= t[n] <= 'Z') {
      assert t[n] == s[|s| - |t| + n];
    }
  }

  /** Every key is a suffix of the lower-cased origin and holds no upper-case letter. */
  lemma NormalizeKeyIsLowerSuffix(originUrl: string)
    ensures EndsWith(ToLower(originUrl), NormalizeKey(originUrl))
    ensures IsLower(NormalizeKey(originUrl))
  {
    var lower := ToLower(originUrl);
    var t := StripTilde(lower);
    var k := StripHost(t);
    StripTildeSuffix(lower);
    StripHostSuffix(t);
    assert lower[|lower| - |k|..] == t[|t| - |k|..];
    ToLowerIdempotent(originUrl);
    LowerSuffix(lower, k);
  }

  /** An origin written "~/…" is stored under a key that starts with '/', whether or not a host is dropped after. */
  lemma TildeOriginKey(originUrl: string)
    requires StartsWith(ToLower(originUrl), "~/")
    ensures StartsWith(NormalizeKey(originUrl), "/")
  {
    var t := StripTilde(ToLower(originUrl));
    StripTildeIdempotent(ToLower(originUrl));
    match IndexOf(t, "://")
    case None =>
    case Some(i) =>
      match IndexOfFrom(t, "/", i + 3)
      case None =>
      case Some(j) => assert OccursAt(t, "/", j);
  }

  /** A key that starts with a scheme free of ':' and '/' followed by "://" does not start with "~/". */
  lemma SchemeNotTilde(scheme: string, rest: string)
    requires ':' !in scheme && '/' !in scheme && StartsWith(rest, "://")
    ensures !StartsWith(scheme + rest, "~/")
  {
    var k := scheme + rest;
    if |scheme| >= 2 { assert k[1] == scheme[1]; }
    else if |scheme| == 1 { assert k[1] == rest[0]; }
    else { assert k[0] == rest[0]; }
  }

  /** The first "://" of `s + "://" + rest` is the one after `s` when `s` has no ':'. */
  lemma SchemeEnd(s: string, rest: string)
    requires ':' !in s
    ensures IndexOf(s + "://" + rest, "://") == Some(|s|)
  {
    var k := s + "://" + rest;
    assert OccursAt(k, "://", |s|);
    forall i | 0 <= i < |s| ensures !OccursAt(k, "://", i) {
      assert k[i] == s[i];
      NotOccursAt(k, "://", i);
    }
  }

  /** The first '/' at or after the start of `h + p` is the one opening `p` when `h` has no '/'. */
  lemma HostEnd(pre: string, h: string, p: string)
    requires '/' !in h && StartsWith(p, "/")
    ensures IndexOfFrom(pre + h + p, "/", |pre|) == Some(|pre| + |h|)
  {
    var k := pre + h + p;
    assert k[|pre| + |h|..][..1] == p[..1];
    assert OccursAt(k, "/", |pre| + |h|);
    var r := IndexOfFrom(k, "/", |pre|);
    assert r.Some? && r.value <= |pre| + |h|;
    if r.value < |pre| + |h| {
      var i := r.value;
      assert k[i] == h[i - |pre|];
      NotOccursAt(k, "/", i);
    }
  }

  /**
   * Host stripping: an origin that lower-cases to "scheme://host/path" is
   * stored under "/path".
   */
  lemma HostStripped(originUrl: string, scheme: string, host: string, path: string)
    requires ToLower(originUrl) == scheme + "://" + host + path
    requires ':' !in scheme && '/' !in scheme && '/' !in host && StartsWith(path, "/")
    ensures NormalizeKey(originUrl) == path
  {
    var k := scheme + "://" + host + path;
    SchemeNotTilde(scheme, k[|scheme|..]);
    assert StripTilde(k) == k;
    SchemeEnd(scheme, host + path);
    assert k == scheme + "://" + (host + path);
    HostEnd(scheme + "://", host, path);
    assert k[|scheme| + 3 + |host|..] == path;
  }

  /**
   * With nothing after the host, there is no '/' to cut at and `substring(-1)`
   * keeps the whole lower-cased origin.
   */
  lemma BareHostKept(originUrl: string, scheme: string, host: string)
    requires ToLower(originUrl) == scheme + "://" + host
    requires ':' !in scheme && '/' !in scheme && '/' !in host
    ensures NormalizeKey(originUrl) == scheme + "://" + host
  {
    var k := scheme + "://" + host;
    SchemeNotTilde(scheme, k[|scheme|..]);
    SchemeEnd(scheme, host);
    forall i | |scheme| + 3 <= i < |k| ensures !OccursAt(k, "/", i) {
      assert k[i] == host[i - |scheme| - 3];
      NotOccursAt(k, "/", i);
    }
  }

  /** The table has an entry exactly for the keys assigned. */
  lemma {:induction false} TableDomain<K, V>(keys: seq<K>, values: seq<V>, k: K)
    requires |keys| == |values|
    ensures k in Table(keys, values) <==> k in keys
  {
    if keys != [] {
      var n := |keys| - 1;
      TableDomain(keys[..n], values[..n], k);
      assert keys == keys[..n] + [keys[n]];
    }
  }

  /** The value under a key is the one assigned with its last occurrence. */
  lemma {:induction false} TableLastWins<K, V>(keys: seq<K>, values: seq<V>, i: nat)
    requires |keys| == |values| && i < |keys|
    requires forall j :: i < j < |keys| ==> keys[j] != keys[i]
    ensures keys[i] in Table(keys, values) && Table(keys, values)[keys[i]] == values[i]
  {
    var n := |keys| - 1;
    if i < n {
      TableLastWins(keys[..n], values[..n], i);
    }
  }

  /** Every entry of the table was assigned by some position of the lists. */
  lemma {:induction false} TableEntry<K, V>(keys: seq<K>, values: seq<V>, k: K)
    requires |keys| == |values| && k in Table(keys, values)
    ensures exists i :: 0 <= i < |keys| && keys[i] == k && values[i] == Table(keys, values)[k]
  {
    var n := |keys| - 1;
    if keys[n] != k {
      TableEntry(keys[..n], values[..n], k);
      var i :| 0 <= i < n && keys[..n][i] == k && values[..n][i] == Table(keys[..n], values[..n])[k];
      assert keys[i] == k && values[i] == Table(keys, values)[k];
    }
  }

  /** The table has an entry for a key exactly when some listed redirection normalises to it. */
  lemma KeyMapDomain(items: seq<Redirection>, key: string)
    ensures key in KeyMap(items) <==> exists i :: 0 <= i < |items| && NormalizeKey(items[i].originUrl) == key
  {
    TableDomain(Keys(items), items, key);
  }

  /**
   * When keys collide the later redirection wins: the entry under a key is
   * the last listed redirection with that key.
   */
  lemma KeyMapLastWins(items: seq<Redirection>, i: nat)
    requires i < |items|
    requires forall j :: i < j < |items| ==> NormalizeKey(items[j].originUrl) != NormalizeKey(items[i].originUrl)
    ensures NormalizeKey(items[i].originUrl) in KeyMap(items)
    ensures KeyMap(items)[NormalizeKey(items[i].originUrl)] == items[i]
  {
    TableLastWins(Keys(items), items, i);
  }

  /** Every stored redirection's normalised origin is the key it is stored under. */
  lemma KeyMapKeysMatch(items: seq<Redirection>, key: string)
    requires key in KeyMap(items)
    ensures NormalizeKey(KeyMap(items)[key].originUrl) == key
    ensures KeyMap(items)[key] in items
  {
    TableEntry(Keys(items), items, key);
  }
}
