/** `labels_to_dict`: the two shapes Compose allows for `labels:` become one
    string-to-string dict. */
module Labels {
  import opened Options
  import opened Text
  import opened Dicts
  import opened Compose

  /** `item.split("=", 1)` followed by `.strip()` on both halves. */
  function SplitItem(item: string): (kv: (string, string))
    requires '=' in item
    ensures IsTrimmed(kv.0) && IsTrimmed(kv.1)
  {
    var i := IndexOf(item, '=').value;
    (Trim(item[..i]), Trim(item[i + 1..]))
  }

  /** The pair a list item contributes: only a string holding `=` gives one. */
  function ItemPairs(item: Value): seq<(string, string)>
  {
    if item.Str? && '=' in item.s then [SplitItem(item.s)] else []
  }

  /** The pairs of the list form, in list order. */
  function ListPairs(items: seq<Value>): seq<(string, string)>
  {
    if items == [] then [] else ListPairs(items[..|items| - 1]) + ItemPairs(items[|items| - 1])
  }

  /** What `labels_to_dict` returns for each shape of `labels:`. */
  function LabelsOf(raw: RawLabels): Dict
  {
    match raw
    case NoLabels => []
    case DictLabels(entries) => PutAll([], entries)
    case ListLabels(items) => PutAll([], ListPairs(items))
    case OtherLabels => []
  }

  /** `labels_to_dict(labels)`. */
  method LabelsToDict(raw: RawLabels) returns (out: Dict)
    ensures out == LabelsOf(raw)
  {
    match raw {
      case NoLabels =>
        out := [];
      case DictLabels(entries) =>
        out := PutAll([], entries);
      case ListLabels(items) =>
        out := ListToDict(items);
      case OtherLabels =>
        out := [];
    }
  }

  /** The list form of `labels:`, filled in one item at a time. */
  method ListToDict(items: seq<Value>) returns (out: Dict)
    ensures out == PutAll([], ListPairs(items))
  {
    out := [];
    for i := 0 to |items|
      invariant out == PutAll([], ListPairs(items[..i]))
    {
      ListPairsSnoc(items, i);
      ghost var done := ListPairs(items[..i]);
      var item := items[i];
      if item.Str? && '=' in item.s {
        var (k, v) := SplitItem(item.s);
        assert ItemPairs(item) == [(k, v)];
        PutAllSnoc([], done, (k, v));
        out := Put(out, k, v);
      } else {
        assert ItemPairs(item) == [];
        assert done + [] == done;
      }
    }
    assert items[..|items|] == items;
  }

  lemma ListPairsSnoc(items: seq<Value>, i: nat)
    requires i < |items|
    ensures ListPairs(items[..i + 1]) == ListPairs(items[..i]) + ItemPairs(items[i])
  {
    assert items[..i + 1][..i] == items[..i];
  }

  /** The result never has a key twice. */
  lemma LabelsValid(raw: RawLabels)
    ensures Valid(LabelsOf(raw))
  {
    match raw
    case DictLabels(entries) => PutAllValid([], entries);
    case ListLabels(items) => PutAllValid([], ListPairs(items));
    case _ =>
  }

  /** An item is split at its first `=` only: the key is the stripped text
      before it, the value the stripped rest, which may hold further `=`. */
  lemma SplitItemAt(key: string, value: string)
    requires '=' !in key
    ensures '=' in key + "=" + value
    ensures SplitItem(key + "=" + value) == (Trim(key), Trim(value))
  {
    var item := key + "=" + value;
    assert item[|key|] == '=';
    var i := IndexOf(item, '=').value;
    assert i == |key|;
    assert item[..i] == key && item[i + 1..] == value;
  }

  lemma {:induction false} ListPairsAppend(a: seq<Value>, b: seq<Value>)
    ensures ListPairs(a + b) == ListPairs(a) + ListPairs(b)
  {
    if b == [] {
      assert a + b == a;
    } else {
      var init, last := b[..|b| - 1], b[|b| - 1];
      assert (a + b)[..|a + b| - 1] == a + init && (a + b)[|a + b| - 1] == last;
      ListPairsAppend(a, init);
      var p, q, r := ListPairs(a), ListPairs(init), ItemPairs(last);
      assert ListPairs(a + b) == (p + q) + r;
      assert ListPairs(b) == q + r;
      AppendAssoc(p, q, r);
    }
  }

  /** Items that are not strings, or hold no `=`, are dropped without any
      effect on the others. */
  lemma ListDropsMalformed(a: seq<Value>, item: Value, b: seq<Value>)
    requires !(item.Str? && '=' in item.s)
    ensures LabelsOf(ListLabels(a + [item] + b)) == LabelsOf(ListLabels(a + b))
  {
    var pairs := ListPairs(a + [item] + b);
    ListPairsAppend(a + [item], b);
    assert (a + [item])[..|a|] == a;
    assert ListPairs(a + [item]) == ListPairs(a);
    ListPairsAppend(a, b);
    assert pairs == ListPairs(a + b);
  }

  /** For a key given by several items, the last of them sets the value. */
  lemma ListLastWins(items: seq<Value>, k: string)
    ensures Get(LabelsOf(ListLabels(items)), k) == LastValue(ListPairs(items), k)
  {
    PutAllGet([], ListPairs(items), k);
  }

  /** The mapping form keeps its entries and their order when their rendered
      keys are distinct. */
  lemma DictFormKeepsEntries(entries: seq<(string, string)>)
    requires Valid(entries)
    ensures LabelsOf(DictLabels(entries)) == entries
  {
    PutAllOfDict(entries);
  }
}
