/** Python's `dict` from strings to strings, with the insertion order it
    keeps: a sequence of key/value pairs whose keys are distinct. Assigning to a key that is
    already present changes its value in place; a new key goes to the end. */
module Dicts {
  import opened Options
  import opened Text

  type Dict = seq<(string, string)>

  /** `list(d.keys())`. */
  function Keys(d: Dict): (ks: seq<string>)
    ensures |ks| == |d|
    ensures forall i :: 0 <= i < |d| ==> ks[i] == d[i].0
  {
    if d == [] then [] else [d[0].0] + Keys(d[1..])
  }

  /** No key occurs twice. */
  predicate Valid(d: Dict)
  {
    d == [] || (d[0].0 !in Keys(d[1..]) && Valid(d[1..]))
  }

  /** `d.get(k)`. */
  function Get(d: Dict, k: string): (r: Option<string>)
    ensures r.None? <==> k !in Keys(d)
  {
    if d == [] then None
    else if d[0].0 == k then Some(d[0].1)
    else Get(d[1..], k)
  }

  lemma {:induction false} GetAt(d: Dict, i: nat)
    requires Valid(d) && i < |d|
    ensures Get(d, d[i].0) == Some(d[i].1)
  {
    if i > 0 {
      GetAt(d[1..], i - 1);
    }
  }

  /** `d[k] = v`. */
  function Put(d: Dict, k: string, v: string): (r: Dict)
    ensures Get(r, k) == Some(v)
    ensures forall k' :: k' != k ==> Get(r, k') == Get(d, k')
  {
    if d == [] then [(k, v)]
    else if d[0].0 == k then [(k, v)] + d[1..]
    else
      var r := [d[0]] + Put(d[1..], k, v);
      assert r[1..] == Put(d[1..], k, v);
      r
  }

  /** Assigning to a present key keeps the key order; a new key is appended. */
  lemma {:induction false} PutKeys(d: Dict, k: string, v: string)
    ensures Keys(Put(d, k, v)) == if k in Keys(d) then Keys(d) else Keys(d) + [k]
  {
    if d == [] {
      assert Keys(Put(d, k, v)) == [k];
    } else if d[0].0 == k {
      var r := Put(d, k, v);
      assert r == [(k, v)] + d[1..];
      assert Keys(r) == Keys(d);
      assert Keys(d)[0] == k;
    } else {
      var r, r' := Put(d, k, v), Put(d[1..], k, v);
      assert Keys(r) == [d[0].0] + Keys(r') by { assert r[1..] == r'; }
      PutKeys(d[1..], k, v);
      var ks := Keys(d[1..]);
      assert Keys(d) == [d[0].0] + ks;
      assert k in Keys(d) <==> k in ks;
      if k !in ks {
        AppendAssoc([d[0].0], ks, [k]);
      }
    }
  }

  lemma {:induction false} PutValid(d: Dict, k: string, v: string)
    requires Valid(d)
    ensures Valid(Put(d, k, v))
  {
    if d != [] {
      var r := Put(d, k, v);
      if d[0].0 == k {
        assert r[1..] == d[1..];
      } else {
        PutValid(d[1..], k, v);
        PutKeys(d[1..], k, v);
        assert r[1..] == Put(d[1..], k, v);
      }
    }
  }

  /** The assignments `d[k] = v` for each pair of `es` in turn, as done by
      `d.update(es)` or by a loop of assignments. */
  function PutAll(d: Dict, es: seq<(string, string)>): Dict
  {
    if es == [] then d
    else
      var last := es[|es| - 1];
      Put(PutAll(d, es[..|es| - 1]), last.0, last.1)
  }

  /** The value paired with `k` by the last pair of `es` that has key `k`. */
  function LastValue(es: seq<(string, string)>, k: string): Option<string>
  {
    if es == [] then None
    else if es[|es| - 1].0 == k then Some(es[|es| - 1].1)
    else LastValue(es[..|es| - 1], k)
  }

  /** Last write wins: after a run of assignments, a key holds the value of
      the last assignment to it, or its old value when it was not assigned. */
  lemma {:induction false} PutAllGet(d: Dict, es: seq<(string, string)>, k: string)
    ensures Get(PutAll(d, es), k) == if LastValue(es, k).Some? then LastValue(es, k) else Get(d, k)
  {
    if es != [] {
      PutAllGet(d, es[..|es| - 1], k);
    }
  }

  lemma {:induction false} PutAllValid(d: Dict, es: seq<(string, string)>)
    requires Valid(d)
    ensures Valid(PutAll(d, es))
  {
    if es != [] {
      PutAllValid(d, es[..|es| - 1]);
      PutValid(PutAll(d, es[..|es| - 1]), es[|es| - 1].0, es[|es| - 1].1);
    }
  }

  /** One more assignment after a run of them. */
  lemma PutAllSnoc(d: Dict, es: seq<(string, string)>, p: (string, string))
    ensures PutAll(d, es + [p]) == Put(PutAll(d, es), p.0, p.1)
  {
    assert (es + [p])[..|es|] == es;
  }

  /** Running two batches of assignments is running their concatenation. */
  lemma {:induction false} PutAllAppend(d: Dict, a: seq<(string, string)>, b: seq<(string, string)>)
    ensures PutAll(d, a + b) == PutAll(PutAll(d, a), b)
  {
    if b == [] {
      assert a + b == a;
    } else {
      assert (a + b)[..|a + b| - 1] == a + b[..|b| - 1];
      PutAllAppend(d, a, b[..|b| - 1]);
    }
  }

  lemma {:induction false} KeysSnoc(d: Dict, p: (string, string))
    ensures Keys(d + [p]) == Keys(d) + [p.0]
  {
    if d != [] {
      assert (d + [p])[1..] == d[1..] + [p];
      KeysSnoc(d[1..], p);
    }
  }

  lemma {:induction false} GetSnoc(d: Dict, p: (string, string), k: string)
    ensures Get(d + [p], k) == if k in Keys(d) then Get(d, k) else if p.0 == k then Some(p.1) else None
  {
    if d != [] {
      assert (d + [p])[1..] == d[1..] + [p];
      GetSnoc(d[1..], p, k);
    }
  }

  lemma {:induction false} ValidSnoc(d: Dict, p: (string, string))
    requires Valid(d + [p])
    ensures Valid(d) && p.0 !in Keys(d)
  {
    if d != [] {
      assert (d + [p])[1..] == d[1..] + [p];
      KeysSnoc(d[1..], p);
      ValidSnoc(d[1..], p);
    }
  }

  /** In a dict, the last pair with a key is its only pair. */
  lemma {:induction false} LastValueOfValid(e: Dict, k: string)
    requires Valid(e)
    ensures LastValue(e, k) == Get(e, k)
  {
    if e != [] {
      var init, last := e[..|e| - 1], e[|e| - 1];
      assert Valid(init) && last.0 !in Keys(init) by {
        assert e == init + [last];
        ValidSnoc(init, last);
      }
      LastValueOfValid(init, k);
      assert Get(e, k) == if k in Keys(init) then Get(init, k) else if last.0 == k then Some(last.1) else None by {
        assert e == init + [last];
        GetSnoc(init, last, k);
      }
    }
  }

  /** A new key is appended. */
  lemma {:induction false} PutNew(d: Dict, k: string, v: string)
    requires k !in Keys(d)
    ensures Put(d, k, v) == d + [(k, v)]
  {
    if d != [] {
      PutNew(d[1..], k, v);
    }
  }

  /** Filling an empty dict from a dict rebuilds it. */
  lemma {:induction false} PutAllOfDict(e: Dict)
    requires Valid(e)
    ensures PutAll([], e) == e
  {
    if e != [] {
      var init, last := e[..|e| - 1], e[|e| - 1];
      assert e == init + [last];
      ValidSnoc(init, last);
      PutAllOfDict(init);
      PutNew(init, last.0, last.1);
    }
  }

  lemma {:induction false} KeysAppend(d: Dict, e: Dict)
    ensures Keys(d + e) == Keys(d) + Keys(e)
  {
    if d != [] {
      assert (d + e)[1..] == d[1..] + e;
      KeysAppend(d[1..], e);
    }
  }

  lemma PutAllSnocFresh(d: Dict, init: Dict, last: (string, string))
    requires PutAll(d, init) == d + init
    requires last.0 !in Keys(d + init)
    ensures PutAll(d, init + [last]) == d + (init + [last])
  {
    var e := init + [last];
    calc {
      PutAll(d, e);
    == { assert e[..|e| - 1] == init && e[|e| - 1] == last; }
      Put(PutAll(d, init), last.0, last.1);
    == { PutNew(d + init, last.0, last.1); }
      (d + init) + [last];
    == { AppendAssoc(d, init, [last]); }
      d + e;
    }
  }


  /** Assigning keys that are all new appends them, in order. */
  lemma {:induction false} PutAllFresh(d: Dict, e: Dict)
    requires Valid(e)
    requires forall k :: k in Keys(e) ==> k !in Keys(d)
    ensures PutAll(d, e) == d + e
  {
    if e != [] {
      var init, last := e[..|e| - 1], e[|e| - 1];
      assert e == init + [last];
      ValidSnoc(init, last);
      KeysSnoc(init, last);
      KeysAppend(d, init);
      PutAllFresh(d, init);
      PutAllSnocFresh(d, init, last);
    }
  }

  /** `d.update(e)` for a dict `e`: every key of `e` takes its value from `e`,
      every other key keeps its value from `d`. */
  lemma UpdateGet(d: Dict, e: Dict, k: string)
    requires Valid(e)
    ensures Get(PutAll(d, e), k) == if Get(e, k).Some? then Get(e, k) else Get(d, k)
  {
    PutAllGet(d, e, k);
    LastValueOfValid(e, k);
  }
}
