/**
 * Key renaming and key conversion over dictionaries
 * (`rename_dict_keys`, `make_camel_from_snake_dict_keys`, `make_snake_from_camel_dict_keys`
 * in src/util/__init__.py).
 *
 * A Python dict is modelled as the sequence of its items in insertion order.
 */
module UtilDicts {
  import opened Wrappers
  import opened UtilCase

  type Dict<V> = seq<(string, V)>

  /** Keys are pairwise distinct, as in every Python dict. */
  predicate IsDict<V>(d: Dict<V>)
  {
    forall i, j :: 0 <= i < j < |d| ==> d[i].0 != d[j].0
  }

  /** The keys in insertion order: `list(d)`. */
  function Keys<V>(d: Dict<V>): (r: seq<string>)
    ensures |r| == |d|
    ensures forall i :: 0 <= i < |d| ==> r[i] == d[i].0
  {
    if d == [] then [] else [d[0].0] + Keys(d[1..])
  }

  /** `d.get(k)`: the value stored under `k`, if any. */
  function Lookup<V>(d: Dict<V>, k: string): Option<V>
  {
    if d == [] then None
    else if d[0].0 == k then Some(d[0].1)
    else Lookup(d[1..], k)
  }

  lemma {:induction false} LookupAt<V>(d: Dict<V>, i: nat)
    requires IsDict(d) && i < |d|
    ensures Lookup(d, d[i].0) == Some(d[i].1)
  {
    if i > 0 {
      LookupAt(d[1..], i - 1);
    }
  }

  /** The `ValueError` of `rename_dict_keys`: a renamed key repeats an earlier one. */
  datatype RenameError = KeyRepeats(key: string)

  /** The new name of `key`: its entry in `mapping`, or the key itself when it has none. */
  function Rename(mapping: map<string, string>, key: string): string
  {
    if key in mapping then mapping[key] else key
  }

  /** Every item of `data` under its renamed key, value unchanged, order kept. */
  function Renamed<V>(data: Dict<V>, mapping: map<string, string>): (r: Dict<V>)
    ensures |r| == |data|
  {
    seq(|data|, i requires 0 <= i < |data| => (Rename(mapping, data[i].0), data[i].1))
  }

  /** Two items of `data` are renamed to the same key. */
  predicate Collides<V>(data: Dict<V>, mapping: map<string, string>)
  {
    exists i, j :: 0 <= i < j < |data| && Rename(mapping, data[i].0) == Rename(mapping, data[j].0)
  }

  /**
   * `rename_dict_keys`: renames every key through `mapping`, keys absent from it keep
   * their name; fails with the first renamed key that repeats an earlier one.
   */
  method RenameDictKeys<V>(data: Dict<V>, mapping: map<string, string>) returns (r: Result<Dict<V>, RenameError>)
    ensures r.Ok? <==> !Collides(data, mapping)
    ensures r.Ok? ==> r.value == Renamed(data, mapping) && IsDict(r.value)
    ensures r.Err? ==> exists j :: 0 <= j < |data| && !Collides(data[..j], mapping)
                                   && Rename(mapping, data[j].0) in Keys(Renamed(data[..j], mapping))
                                   && r.error == KeyRepeats(Rename(mapping, data[j].0))
  {
    var renamed: Dict<V> := [];
    var i := 0;
    while i < |data|
      invariant 0 <= i <= |data|
      invariant renamed == Renamed(data[..i], mapping)
      invariant !Collides(data[..i], mapping)
    {
      var renamedKey := Rename(mapping, data[i].0);
      if renamedKey in Keys(renamed) {
        assert Collides(data, mapping) by {
          var k :| 0 <= k < |renamed| && Keys(renamed)[k] == renamedKey;
          assert data[..i][k] == data[k];
        }
        return Err(KeyRepeats(renamedKey));
      }
      var next := data[..i + 1];
      assert next == data[..i] + [data[i]];
      renamed := renamed + [(renamedKey, data[i].1)];
      assert !Collides(next, mapping) by {
        forall a, b | 0 <= a < b < i + 1
          ensures Rename(mapping, next[a].0) != Rename(mapping, next[b].0)
        {
          if b == i {
            assert Keys(renamed)[a] == Rename(mapping, data[a].0);
          } else {
            assert data[..i][a] == data[a] && data[..i][b] == data[b];
          }
        }
      }
      i := i + 1;
    }
    assert data[..i] == data;
    return Ok(renamed);
  }

  /** With an empty mapping, renaming changes nothing. */
  lemma RenameEmptyMapping<V>(data: Dict<V>)
    requires IsDict(data)
    ensures !Collides(data, map[])
    ensures Renamed(data, map[]) == data
  {
  }

  /** After a collision-free rename, each renamed key finds the value of the key it came from. */
  lemma RenamedLookup<V>(data: Dict<V>, mapping: map<string, string>, i: nat)
    requires !Collides(data, mapping) && i < |data|
    ensures IsDict(Renamed(data, mapping))
    ensures Lookup(Renamed(data, mapping), Rename(mapping, data[i].0)) == Some(data[i].1)
  {
    LookupAt(Renamed(data, mapping), i);
  }

  /** `d[k] = v` on a Python dict: overwrite in place when `k` is present, append otherwise. */
  function Insert<V>(d: Dict<V>, k: string, v: V): (r: Dict<V>)
  {
    if k in Keys(d) then d[IndexOf(d, k) := (k, v)]
    else d + [(k, v)]
  }

  /** Position of the first item stored under `k`. */
  function IndexOf<V>(d: Dict<V>, k: string): (i: nat)
    requires k in Keys(d)
    ensures i < |d| && d[i].0 == k
  {
    if d[0].0 == k then 0
    else
      assert Keys(d[1..]) == Keys(d)[1..];
      1 + IndexOf(d[1..], k)
  }

  lemma InsertProps<V>(d: Dict<V>, k: string, v: V)
    requires IsDict(d)
    ensures IsDict(Insert(d, k, v))
    ensures Lookup(Insert(d, k, v), k) == Some(v)
    ensures forall k' :: k' != k ==> Lookup(Insert(d, k, v), k') == Lookup(d, k')
    ensures k in Keys(d) ==> |Insert(d, k, v)| == |d| && Keys(Insert(d, k, v)) == Keys(d)
    ensures k !in Keys(d) ==> Insert(d, k, v) == d + [(k, v)]
  {
    var r := Insert(d, k, v);
    if k in Keys(d) {
      var j := IndexOf(d, k);
      LookupAt(r, j);
      forall k' | k' != k ensures Lookup(r, k') == Lookup(d, k') {
        LookupOther(d, j, (k, v), k');
      }
    } else {
      assert IsDict(r);
      LookupAt(r, |d|);
      forall k' | k' != k ensures Lookup(r, k') == Lookup(d, k') {
        LookupAppend(d, (k, v), k');
      }
    }
  }

  lemma {:induction false} LookupOther<V>(d: Dict<V>, j: nat, item: (string, V), k: string)
    requires j < |d| && d[j].0 == item.0 && k != item.0
    ensures Lookup(d[j := item], k) == Lookup(d, k)
  {
    if j > 0 {
      assert d[j := item][1..] == d[1..][j - 1 := item];
      LookupOther(d[1..], j - 1, item, k);
    }
  }

  lemma {:induction false} LookupAppend<V>(d: Dict<V>, item: (string, V), k: string)
    requires k != item.0
    ensures Lookup(d + [item], k) == Lookup(d, k)
  {
    if d != [] {
      assert (d + [item])[1..] == d[1..] + [item];
      LookupAppend(d[1..], item, k);
    }
  }

  /**
   * A dict rebuilt with every key converted by `f`: the items are inserted in order,
   * so when two keys convert to the same key the later value wins.
   */
  function Rekey<V>(data: Dict<V>, f: string -> string): Dict<V>
  {
    if data == [] then []
    else
      var last := data[|data| - 1];
      Insert(Rekey(data[..|data| - 1], f), f(last.0), last.1)
  }

  /** The value of the last item of `data` whose key converts to `k`: the reference for "later wins". */
  function LastWith<V>(data: Dict<V>, f: string -> string, k: string): Option<V>
  {
    if data == [] then None
    else if f(data[|data| - 1].0) == k then Some(data[|data| - 1].1)
    else LastWith(data[..|data| - 1], f, k)
  }

  /** f takes distinct keys of `data` to distinct keys. */
  predicate InjectiveOn<V>(data: Dict<V>, f: string -> string)
  {
    forall i, j :: 0 <= i < j < |data| ==> f(data[i].0) != f(data[j].0)
  }

  /** Rekeying gives a dict in which every key finds the last value converted to it. */
  lemma {:induction false} RekeyLookup<V>(data: Dict<V>, f: string -> string)
    ensures IsDict(Rekey(data, f))
    ensures forall k :: Lookup(Rekey(data, f), k) == LastWith(data, f, k)
  {
    if data != [] {
      var init, last := data[..|data| - 1], data[|data| - 1];
      RekeyLookup(init, f);
      InsertProps(Rekey(init, f), f(last.0), last.1);
    }
  }

  /** When no two keys collide, rekeying renames item by item and keeps the order and size. */
  lemma {:induction false} RekeyInjective<V>(data: Dict<V>, f: string -> string)
    requires InjectiveOn(data, f)
    ensures Rekey(data, f) == seq(|data|, i requires 0 <= i < |data| => (f(data[i].0), data[i].1))
  {
    if data != [] {
      var init, last := data[..|data| - 1], data[|data| - 1];
      assert InjectiveOn(init, f) by {
        assert forall i :: 0 <= i < |init| ==> init[i] == data[i];
      }
      RekeyInjective(init, f);
      var prev := Rekey(init, f);
      assert f(last.0) !in Keys(prev) by {
        forall i | 0 <= i < |prev| ensures Keys(prev)[i] != f(last.0) {
          assert prev[i].0 == f(data[i].0);
        }
      }
      RekeyLookup(init, f);
      InsertProps(prev, f(last.0), last.1);
    }
  }

  /** The keys of the rekeyed dict are exactly the converted keys. */
  lemma {:induction false} RekeyKeys<V>(data: Dict<V>, f: string -> string, k: string)
    ensures k in Keys(Rekey(data, f)) <==> exists i :: 0 <= i < |data| && f(data[i].0) == k
  {
    if data != [] {
      var init, last := data[..|data| - 1], data[|data| - 1];
      RekeyKeys(init, f, k);
      RekeyLookup(init, f);
      var prev := Rekey(init, f);
      if k == f(last.0) {
        if f(last.0) in Keys(prev) {
          var j := IndexOf(prev, f(last.0));
          assert Keys(Rekey(data, f))[j] == k;
        } else {
          assert Keys(Rekey(data, f))[|prev|] == k;
        }
      } else {
        KeysInsertOther(prev, f(last.0), last.1, k);
        if exists i :: 0 <= i < |data| && f(data[i].0) == k {
          var i :| 0 <= i < |data| && f(data[i].0) == k;
          assert i < |init| && init[i] == data[i];
        }
        if exists i :: 0 <= i < |init| && f(init[i].0) == k {
          var i :| 0 <= i < |init| && f(init[i].0) == k;
          assert data[i] == init[i];
        }
      }
    }
  }

  lemma KeysInsertOther<V>(d: Dict<V>, k: string, v: V, k': string)
    requires k' != k
    ensures k' in Keys(Insert(d, k, v)) <==> k' in Keys(d)
  {
    var r := Insert(d, k, v);
    if k in Keys(d) {
      var j := IndexOf(d, k);
      assert forall i :: 0 <= i < |d| && i != j ==> Keys(r)[i] == Keys(d)[i];
      if k' in Keys(r) {
        var i :| 0 <= i < |r| && Keys(r)[i] == k';
      }
      if k' in Keys(d) {
        var i :| 0 <= i < |d| && Keys(d)[i] == k';
        assert Keys(r)[i] == k';
      }
    } else {
      if k' in Keys(d) {
        var i :| 0 <= i < |d| && Keys(d)[i] == k';
        assert Keys(r)[i] == k';
      }
      if k' in Keys(r) {
        var i :| 0 <= i < |r| && Keys(r)[i] == k';
        assert i < |d|;
        assert Keys(d)[i] == k';
      }
    }
  }

  /** `make_camel_from_snake_dict_keys` */
  function MakeCamelFromSnakeDictKeys<V>(data: Dict<V>): (r: Dict<V>)
    ensures IsDict(r)
    ensures forall k :: Lookup(r, k) == LastWith(data, CamelFromSnake, k)
  {
    RekeyLookup(data, CamelFromSnake);
    Rekey(data, CamelFromSnake)
  }

  /** `make_snake_from_camel_dict_keys` */
  function MakeSnakeFromCamelDictKeys<V>(data: Dict<V>): (r: Dict<V>)
    ensures IsDict(r)
    ensures forall k :: Lookup(r, k) == LastWith(data, SnakeFromCamel, k)
  {
    RekeyLookup(data, SnakeFromCamel);
    Rekey(data, SnakeFromCamel)
  }

  /** `LastWith` picks the item with the largest index among those converting to the same key. */
  lemma {:induction false} LastWithAt<V>(data: Dict<V>, f: string -> string, j: nat)
    requires j < |data|
    requires forall j' :: j < j' < |data| ==> f(data[j'].0) != f(data[j].0)
    ensures LastWith(data, f, f(data[j].0)) == Some(data[j].1)
  {
    if j < |data| - 1 {
      var init := data[..|data| - 1];
      assert forall j' :: j < j' < |init| ==> init[j'] == data[j'];
      LastWithAt(init, f, j);
    }
  }

  /** Two keys that convert to the same snake_case key: the later value silently wins. */
  lemma SnakeCollisionLaterWins()
    ensures MakeSnakeFromCamelDictKeys([("aB", 1), ("a_b", 2)]) == [("a_b", 2)]
  {
    var data := [("aB", 1), ("a_b", 2)];
    assert SnakeFromCamel("aB") == "a_b" by {
      SnakeCons('a', "B");
      SnakeCons('B', "");
      assert "aB" == ['a'] + "B" && "B" == ['B'] + "";
    }
    assert data[..1] == [("aB", 1)] && [("aB", 1)][..0] == [];
    assert Rekey([("aB", 1)], SnakeFromCamel) == [("a_b", 1)];
    assert Keys([("a_b", 1)]) == ["a_b"];
    assert SnakeFromCamel("a_b") == "a_b" by {
      SnakeOfNoUpper("a_b");
    }
    LastWithAt([("aB", 1), ("a_b", 2)], SnakeFromCamel, 1);
  }
}
