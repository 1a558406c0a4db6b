/**
 * The per-row work of `_store_in_thread`: each CSV data row zipped with the
 * CSV header into a dict (`dict(zip(csv_data[0], item))`) and each dict
 * projected onto the effective header (`[item.get(field) for field in header]`).
 */
module Items {
  import opened Wrappers
  import opened Sheets

  /** A CSV data row keyed by the CSV header's column names. */
  type Item = map<string, string>

  function Min(a: nat, b: nat): nat {
    if a <= b then a else b
  }

  /**
   * `dict(zip(keys, values))`: `zip` stops at the shorter sequence and the
   * pairs are inserted in order, so a repeated key keeps its last value.
   */
  function Zip(keys: seq<string>, values: seq<string>): (item: Item)
    ensures forall k | k in item :: k in keys[..Min(|keys|, |values|)]
    decreases |keys|
  {
    var n := Min(|keys|, |values|);
    if n == 0 then map[]
    else Zip(keys[..n - 1], values[..n - 1])[keys[n - 1] := values[n - 1]]
  }

  /** `item.get(key)`. */
  function Get(item: Item, key: string): (c: Cell)
    ensures c.None? <==> key !in item
    ensures c.Some? ==> c.value == item[key]
  {
    if key in item then Some(item[key]) else None
  }

  /** `[item.get(field) for field in header]`. */
  function Project(item: Item, header: seq<string>): (row: seq<Cell>)
    ensures |row| == |header|
  {
    seq(|header|, i requires 0 <= i < |header| => Get(item, header[i]))
  }

  /**
   * `[dict(zip(csv_data[0], item)) for item in csv_data[1:]]`: one item per
   * CSV row after the first, in CSV order. An empty CSV gives no items
   * (the header row is never looked at).
   */
  function ItemsOf(csv: seq<seq<string>>): (items: seq<Item>)
    ensures |items| == if csv == [] then 0 else |csv| - 1
    ensures forall k :: 0 <= k < |items| ==> items[k] == Zip(csv[0], csv[k + 1])
  {
    if csv == [] then []
    else seq(|csv| - 1, k requires 0 <= k < |csv| - 1 => Zip(csv[0], csv[k + 1]))
  }

  /** The keys of the zipped dict are the names of the columns the row reaches. */
  lemma {:induction false} ZipKeys(keys: seq<string>, values: seq<string>, k: string)
    ensures k in Zip(keys, values) <==> k in keys[..Min(|keys|, |values|)]
    decreases |keys|
  {
    var n := Min(|keys|, |values|);
    if n > 0 {
      ZipKeys(keys[..n - 1], values[..n - 1], k);
      assert keys[..n - 1][..n - 1] == keys[..n - 1];
      assert keys[..n] == keys[..n - 1] + [keys[n - 1]];
    }
  }

  /** On a repeated column name, the value of its last occurrence wins. */
  lemma {:induction false} ZipLastWins(keys: seq<string>, values: seq<string>, i: nat)
    requires i < Min(|keys|, |values|)
    requires forall j :: i < j < Min(|keys|, |values|) ==> keys[j] != keys[i]
    ensures keys[i] in Zip(keys, values) && Zip(keys, values)[keys[i]] == values[i]
    decreases |keys|
  {
    var n := Min(|keys|, |values|);
    if i < n - 1 {
      ZipLastWins(keys[..n - 1], values[..n - 1], i);
    }
  }

  /**
   * The index of the last occurrence of `k` in `keys`, or -1 when there is
   * none.
   */
  function LastIndexOf(keys: seq<string>, k: string): (j: int)
    ensures -1 <= j < |keys|
    ensures j >= 0 ==> keys[j] == k
    ensures forall l :: j < l < |keys| ==> keys[l] != k
  {
    if keys == [] then -1
    else if keys[|keys| - 1] == k then |keys| - 1
    else LastIndexOf(keys[..|keys| - 1], k)
  }

  /**
   * The reference meaning of `dict(zip(csvHeader, data)).get(name)`: the row's
   * value in the last CSV column called `name` among the columns the row
   * reaches, or `None` when there is no such column.
   */
  function ColumnValue(csvHeader: seq<string>, data: seq<string>, name: string): Cell {
    var j := LastIndexOf(csvHeader[..Min(|csvHeader|, |data|)], name);
    if j < 0 then None else Some(data[j])
  }

  /**
   * Cell `c` of a projected CSV row is the row's value for the column named
   * `header[c]`, so a CSV column whose name is not in the header is dropped.
   */
  lemma ProjectCell(csvHeader: seq<string>, data: seq<string>, header: seq<string>, c: nat)
    requires c < |header|
    ensures |Project(Zip(csvHeader, data), header)| == |header|
    ensures Project(Zip(csvHeader, data), header)[c] == ColumnValue(csvHeader, data, header[c])
  {
    var n := Min(|csvHeader|, |data|);
    var keys := csvHeader[..n];
    var k := header[c];
    var j := LastIndexOf(keys, k);
    var item := Zip(csvHeader, data);
    assert Project(item, header)[c] == Get(item, k);
    ZipKeys(csvHeader, data, k);
    if j >= 0 {
      assert forall l :: j < l < n ==> csvHeader[l] != k by {
        forall l | j < l < n ensures csvHeader[l] != k {
          assert keys[l] == csvHeader[l];
        }
      }
      ZipLastWins(csvHeader, data, j);
    } else {
      assert k !in keys;
    }
  }

  /**
   * Projection onto a header that reorders and narrows the CSV's columns:
   * the CSV's `b` column comes first, then `a`, and `c` is dropped.
   */
  lemma ProjectReorders(x: string, y: string, z: string)
    ensures Project(Zip(["a", "b", "c"], [x, y, z]), ["b", "a"]) == [Some(y), Some(x)]
  {
    ProjectCell(["a", "b", "c"], [x, y, z], ["b", "a"], 0);
    ProjectCell(["a", "b", "c"], [x, y, z], ["b", "a"], 1);
  }
}
