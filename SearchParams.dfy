/**
 * The query of a request as `URLSearchParams` holds it: an ordered list of
 * name/value pairs in which a name may repeat.
 */
module SearchParams {
  import opened Wrappers
  import opened Strings
  import opened UriEncoding

  datatype Param = Param(name: string, value: string)

  type Query = seq<Param>

  /** `params.has(name)`. */
  predicate Has(q: Query, name: string) {
    exists k :: 0 <= k < |q| && q[k].name == name
  }

  /** `has` holds of a concatenation exactly when it holds of one of the parts. */
  lemma HasAppend(a: Query, b: Query, name: string)
    ensures Has(a + b, name) <==> Has(a, name) || Has(b, name)
  {
    if Has(a + b, name) {
      var k :| 0 <= k < |a + b| && (a + b)[k].name == name;
      if k >= |a| {
        assert b[k - |a|] == (a + b)[k];
      }
    }
    if Has(a, name) {
      var k :| 0 <= k < |a| && a[k].name == name;
      assert (a + b)[k] == a[k];
    }
    if Has(b, name) {
      var k :| 0 <= k < |b| && b[k].name == name;
      assert (a + b)[|a| + k] == b[k];
    }
  }

  /** `params.get(name)`: the value of the first pair with that name; `null` when there is none. */
  function Get(q: Query, name: string): (r: Option<string>)
    ensures r.None? <==> !Has(q, name)
    ensures r.Some? ==> Param(name, r.value) in q
  {
    if q == [] then None
    else if q[0].name == name then Some(q[0].value)
    else
      assert forall k :: 1 <= k < |q| ==> q[k] == q[1..][k - 1];
      Get(q[1..], name)
  }

  /** The value `get` returns is that of the first pair with the name. */
  lemma {:induction false} GetFirst(q: Query, name: string, k: nat)
    requires k < |q| && q[k].name == name
    requires forall j :: 0 <= j < k ==> q[j].name != name
    ensures Get(q, name) == Some(q[k].value)
  {
    if k > 0 {
      GetFirst(q[1..], name, k - 1);
    }
  }

  /**
   * `params.delete(name)`: every pair with that name goes. That every other
   * pair stays, as often as it was there and in its order, is the subject
   * of `DeleteKeepsOthers` and `DeleteAppend`.
   */
  function Delete(q: Query, name: string): (r: Query)
    ensures !Has(r, name)
    ensures forall k :: 0 <= k < |r| ==> r[k] in q
    ensures forall p: Param :: p in q && p.name != name ==> p in r
  {
    if q == [] then []
    else
      assert q == [q[0]] + q[1..];
      if q[0].name == name then Delete(q[1..], name)
      else [q[0]] + Delete(q[1..], name)
  }

  /** Every pair with another name stays, as often as it was there. */
  lemma {:induction false} DeleteKeepsOthers(q: Query, name: string, p: Param)
    requires p.name != name
    ensures multiset(Delete(q, name))[p] == multiset(q)[p]
  {
    if q != [] {
      var rest := q[1..];
      var kept, keptRest := Delete([q[0]], name), Delete(rest, name);
      assert Delete(q, name) == kept + keptRest by {
        assert q == [q[0]] + rest;
        DeleteAppend([q[0]], rest, name);
      }
      assert multiset(kept)[p] == multiset([q[0]])[p] by {
        DeleteOne(q[0], name);
      }
      assert multiset(keptRest)[p] == multiset(rest)[p] by {
        DeleteKeepsOthers(rest, name, p);
      }
      assert multiset(q)[p] == multiset([q[0]])[p] + multiset(rest)[p] by {
        assert q == [q[0]] + rest;
      }
      assert multiset(kept + keptRest)[p] == multiset(kept)[p] + multiset(keptRest)[p];
    }
  }

  /** A single pair goes when it has the name and stays otherwise. */
  lemma DeleteOne(p: Param, name: string)
    ensures Delete([p], name) == if p.name == name then [] else [p]
  {
  }

  /**
   * Deleting works pair by pair, in order: deleting from a concatenation is
   * concatenating the deletions. With `DeleteOne` this fixes `Delete`
   * completely, the order of the kept pairs included.
   */
  lemma {:induction false} DeleteAppend(a: Query, b: Query, name: string)
    ensures Delete(a + b, name) == Delete(a, name) + Delete(b, name)
  {
    if a == [] {
      assert a + b == b;
    } else {
      var ab := a + b;
      assert ab[0] == a[0] && ab[1..] == a[1..] + b;
      DeleteAppend(a[1..], b, name);
      if a[0].name == name {
        assert Delete(ab, name) == Delete(a[1..] + b, name);
        assert Delete(a, name) == Delete(a[1..], name);
      } else {
        assert Delete(ab, name) == [a[0]] + Delete(a[1..] + b, name);
        assert Delete(a, name) == [a[0]] + Delete(a[1..], name);
      }
    }
  }

  /** Deleting one name changes what `get` returns for no other name. */
  lemma {:induction false} GetAfterDelete(q: Query, deleted: string, name: string)
    requires name != deleted
    ensures Get(Delete(q, deleted), name) == Get(q, name)
  {
    if q != [] {
      GetAfterDelete(q[1..], deleted, name);
    }
  }

  function SerializePair(p: Param): string {
    FormUrlEncode(p.name) + "=" + FormUrlEncode(p.value)
  }

  /**
   * `params.toString()`: each pair form-urlencoded as "name=value", the pairs
   * joined by '&'.
   */
  function Serialize(q: Query): (s: string)
    ensures s == [] <==> q == []
    ensures '~' !in s
  {
    if q == [] then []
    else if |q| == 1 then SerializePair(q[0])
    else SerializePair(q[0]) + "&" + Serialize(q[1..])
  }

  /** Each pair's text holds no '&', and its name part holds no '='. */
  lemma SerializePairShape(p: Param)
    ensures '&' !in SerializePair(p)
    ensures SerializePair(p) == FormUrlEncode(p.name) + ['='] + FormUrlEncode(p.value)
    ensures '=' !in FormUrlEncode(p.name)
  {
    var n, v := FormUrlEncode(p.name), FormUrlEncode(p.value);
    NoSeparators(n);
    NoSeparators(v);
    assert SerializePair(p) == n + ['='] + v;
  }

  /** Form-urlencoded text holds neither separator. */
  lemma NoSeparators(s: string)
    requires forall i :: 0 <= i < |s| ==> IsFormOutput(s[i])
    ensures '&' !in s && '=' !in s
  {
  }

  /** Distinct pairs serialize differently. */
  lemma SerializePairInjective(p1: Param, p2: Param)
    requires SerializePair(p1) == SerializePair(p2)
    ensures p1 == p2
  {
    SerializePairShape(p1);
    SerializePairShape(p2);
    SplitAtFirstUnique(FormUrlEncode(p1.name), FormUrlEncode(p1.value), FormUrlEncode(p2.name), FormUrlEncode(p2.value), '=');
    FormUrlEncodeInjective(p1.name, p2.name);
    FormUrlEncodeInjective(p1.value, p2.value);
  }

  /** A query of several pairs serializes as its first pair, '&', and the rest. */
  lemma SerializeCons(q: Query)
    requires |q| >= 2
    ensures Serialize(q) == SerializePair(q[0]) + ['&'] + Serialize(q[1..])
  {
  }

  /** Distinct queries serialize to distinct search strings. */
  lemma {:induction false} SerializeInjective(q1: Query, q2: Query)
    requires Serialize(q1) == Serialize(q2)
    ensures q1 == q2
  {
    if q1 != [] && q2 != [] {
      if |q1| == 1 && |q2| == 1 {
        SerializePairInjective(q1[0], q2[0]);
      } else if |q1| == 1 {
        SerializeOneNotMany(q1, q2);
      } else if |q2| == 1 {
        SerializeOneNotMany(q2, q1);
      } else {
        SerializeHeadTail(q1, q2);
        SerializeInjective(q1[1..], q2[1..]);
        SameHeadTail(q1, q2);
      }
    }
  }

  lemma SameHeadTail(q1: Query, q2: Query)
    requires q1 != [] && q2 != []
    requires q1[0] == q2[0] && q1[1..] == q2[1..]
    ensures q1 == q2
  {
    assert q1 == [q1[0]] + q1[1..] && q2 == [q2[0]] + q2[1..];
  }

  /** One pair never serializes like several: the pair's text has no '&'. */
  lemma SerializeOneNotMany(q1: Query, q2: Query)
    requires |q1| == 1 && |q2| >= 2
    ensures Serialize(q1) != Serialize(q2)
  {
    SerializePairShape(q1[0]);
    SerializeCons(q2);
    var s := Serialize(q2);
    assert s[|SerializePair(q2[0])|] == '&';
  }

  /** Equal serializations of several pairs agree on the first pair and on the rest. */
  lemma SerializeHeadTail(q1: Query, q2: Query)
    requires |q1| >= 2 && |q2| >= 2
    requires Serialize(q1) == Serialize(q2)
    ensures q1[0] == q2[0] && Serialize(q1[1..]) == Serialize(q2[1..])
  {
    SerializePairShape(q1[0]);
    SerializePairShape(q2[0]);
    SerializeCons(q1);
    SerializeCons(q2);
    SplitAtFirstUnique(SerializePair(q1[0]), Serialize(q1[1..]), SerializePair(q2[0]), Serialize(q2[1..]), '&');
    SerializePairInjective(q1[0], q2[0]);
  }
}
