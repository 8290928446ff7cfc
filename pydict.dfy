/**
 * A Python `dict[str, str]`: a map that remembers the order in which keys
 * were first inserted. Assigning to an existing key keeps its position.
 */
module PyDict {

  datatype Dict = Dict(order: seq<string>, entries: map<string, string>)

  /** Keys are listed once each, and exactly the keys of the map are listed. */
  predicate Valid(d: Dict) {
    && (forall i, j :: 0 <= i < j < |d.order| ==> d.order[i] != d.order[j])
    && d.entries.Keys == set k | k in d.order
  }

  const Empty: Dict := Dict([], map[])

  /** Python `d[k] = v`: a new key is listed last, an existing one keeps its place. */
  function Insert(d: Dict, k: string, v: string): Dict {
    Dict(if k in d.entries then d.order else d.order + [k], d.entries[k := v])
  }

  /** Python `list(d.items())`. */
  function Items(d: Dict): (items: seq<(string, string)>)
    requires Valid(d)
    ensures |items| == |d.order|
    ensures forall i :: 0 <= i < |items| ==> items[i] == (d.order[i], d.entries[d.order[i]])
  {
    seq(|d.order|, i requires 0 <= i < |d.order| => (d.order[i], d.entries[d.order[i]]))
  }

  /** Assignment keeps a dict well formed and binds the key to the value. */
  lemma InsertValid(d: Dict, k: string, v: string)
    requires Valid(d)
    ensures Valid(Insert(d, k, v))
    ensures Insert(d, k, v).entries == d.entries[k := v]
    ensures Insert(d, k, v).entries.Keys == d.entries.Keys + {k}
  {
    var r := Insert(d, k, v);
    if k !in d.entries {
      forall i, j | 0 <= i < j < |r.order| ensures r.order[i] != r.order[j] {
        if j == |d.order| {
          assert r.order[i] == d.order[i] && d.order[i] in d.entries;
        }
      }
    }
  }

  /** Assigning a key the value it already has changes nothing. */
  lemma InsertSame(d: Dict, k: string)
    requires k in d.entries
    ensures Insert(d, k, d.entries[k]) == d
  {
  }

  /** A new key goes last; an existing key keeps its place and only its value changes. */
  lemma InsertItems(d: Dict, k: string, v: string)
    requires Valid(d)
    ensures Valid(Insert(d, k, v))
    ensures k !in d.entries ==> Items(Insert(d, k, v)) == Items(d) + [(k, v)]
    ensures k in d.entries ==> |Items(Insert(d, k, v))| == |Items(d)|
    ensures forall i :: 0 <= i < |Items(d)| ==>
      Items(Insert(d, k, v))[i] == if Items(d)[i].0 == k then (k, v) else Items(d)[i]
  {
    InsertValid(d, k, v);
  }

  /** A four-entry display `{k1: v1, ..., k4: v4}` with distinct keys. */
  lemma Display4(k1: string, v1: string, k2: string, v2: string, k3: string, v3: string, k4: string, v4: string)
    requires k1 != k2 && k1 != k3 && k1 != k4
    requires k2 != k3 && k2 != k4 && k3 != k4
    ensures Insert(Insert(Insert(Insert(Empty, k1, v1), k2, v2), k3, v3), k4, v4)
         == Dict([k1, k2, k3, k4], map[k1 := v1, k2 := v2, k3 := v3, k4 := v4])
  {
  }

  lemma Items4(k1: string, v1: string, k2: string, v2: string, k3: string, v3: string, k4: string, v4: string)
    requires k1 != k2 && k1 != k3 && k1 != k4
    requires k2 != k3 && k2 != k4 && k3 != k4
    ensures var d := Dict([k1, k2, k3, k4], map[k1 := v1, k2 := v2, k3 := v3, k4 := v4]);
      Valid(d) && Items(d) == [(k1, v1), (k2, v2), (k3, v3), (k4, v4)]
  {
  }

  /** A six-entry display `{k1: v1, ..., k6: v6}` with distinct keys. */
  lemma Display6(k1: string, v1: string, k2: string, v2: string, k3: string, v3: string,
                 k4: string, v4: string, k5: string, v5: string, k6: string, v6: string)
    requires k1 != k2 && k1 != k3 && k1 != k4 && k1 != k5 && k1 != k6
    requires k2 != k3 && k2 != k4 && k2 != k5 && k2 != k6
    requires k3 != k4 && k3 != k5 && k3 != k6
    requires k4 != k5 && k4 != k6 && k5 != k6
    ensures Insert(Insert(Insert(Insert(Insert(Insert(Empty, k1, v1), k2, v2), k3, v3), k4, v4), k5, v5), k6, v6)
         == Dict([k1, k2, k3, k4, k5, k6], map[k1 := v1, k2 := v2, k3 := v3, k4 := v4, k5 := v5, k6 := v6])
  {
    Display4(k1, v1, k2, v2, k3, v3, k4, v4);
  }

  lemma Items6(k1: string, v1: string, k2: string, v2: string, k3: string, v3: string,
               k4: string, v4: string, k5: string, v5: string, k6: string, v6: string)
    requires k1 != k2 && k1 != k3 && k1 != k4 && k1 != k5 && k1 != k6
    requires k2 != k3 && k2 != k4 && k2 != k5 && k2 != k6
    requires k3 != k4 && k3 != k5 && k3 != k6
    requires k4 != k5 && k4 != k6 && k5 != k6
    ensures var d := Dict([k1, k2, k3, k4, k5, k6], map[k1 := v1, k2 := v2, k3 := v3, k4 := v4, k5 := v5, k6 := v6]);
      Valid(d) && Items(d) == [(k1, v1), (k2, v2), (k3, v3), (k4, v4), (k5, v5), (k6, v6)]
  {
  }
}
