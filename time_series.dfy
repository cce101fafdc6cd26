/**
 * FinTimeSeries: a sorted key array that runs in parallel with one value array per
 * tick type (two families of value arrays, `values1` and `values2`), a count `size`
 * of the keys in use and a `version` stamp. The element types are those MemDb
 * instantiates: day keys (int), float prices (real) and uint values (UInt32).
 */
module TimeSeries {
  import opened Wrappers
  import Clr

  datatype TickType =
    | Open | Close | High | Low | Volume | Dividend | SplitRatio | SplitAdjClose
    | SplitDivAdjClose | Ask | Bid | Last | OpenInterest | Settle | EFP | SHIR
    | SharesOutstanding

  /** The exceptions the series raises. */
  datatype SeriesError =
    | DuplicateKey        // ArgumentException from Add1/Add2
    | DuplicateTickType   // ArgumentException from Dictionary.Add in a constructor
    | IndexOutOfRange     // ArgumentOutOfRangeException from RemoveAt
    | CapacityTooSmall    // ArgumentOutOfRangeException from the Capacity setter
    | ArrayTooLarge       // OutOfMemoryException: an array longer than the runtime allows
    | KeyNotFound         // KeyNotFoundException: a key or tick type that is not present

  datatype Outcome = Done | Failed(error: SeriesError)

  /** The uint values of values2. */
  newtype UInt32 = x: int | 0 <= x < 0x1_0000_0000

  const DefaultCapacity: int := 4
  /** The longest array the runtime allocates for these element types. */
  const MaxArrayLength: int := 0x7FEF_FFFF

  predicate NonDecreasing(s: seq<int>)
  {
    forall i, j :: 0 <= i < j < |s| ==> s[i] <= s[j]
  }

  predicate StrictlyIncreasing(s: seq<int>)
  {
    forall i, j :: 0 <= i < j < |s| ==> s[i] < s[j]
  }

  predicate NoDuplicates<T(==)>(s: seq<T>)
  {
    forall i, j :: 0 <= i < j < |s| ==> s[i] != s[j]
  }

  function InsertAt<T>(s: seq<T>, i: nat, x: T): seq<T>
    requires i <= |s|
  {
    s[..i] + [x] + s[i..]
  }

  function Without<T>(s: seq<T>, i: nat): seq<T>
    requires i < |s|
  {
    s[..i] + s[i + 1..]
  }

  /** The index of the first element not below `key`: where a binary search inserts it. */
  function InsertionPoint(s: seq<int>, key: int): (p: nat)
    ensures p <= |s|
    ensures forall i :: 0 <= i < p ==> s[i] < key
    ensures p < |s| ==> key <= s[p]
  {
    if s == [] || key <= s[0] then 0 else 1 + InsertionPoint(s[1..], key)
  }

  /** In a non-decreasing sequence every element from the insertion point on is at least `key`. */
  lemma InsertionPointSplits(s: seq<int>, key: int)
    requires NonDecreasing(s)
    ensures forall i :: InsertionPoint(s, key) <= i < |s| ==> key <= s[i]
  {
    var p := InsertionPoint(s, key);
    forall i | p <= i < |s| ensures key <= s[i] {
      assert s[p] <= s[i];
    }
  }

  /** The insertion point is the only index that splits the sequence into "below key" and "not below key". */
  lemma InsertionPointUnique(s: seq<int>, key: int, p: nat)
    requires p <= |s|
    requires forall i :: 0 <= i < p ==> s[i] < key
    requires forall i :: p <= i < |s| ==> key <= s[i]
    ensures InsertionPoint(s, key) == p
  {
    var q := InsertionPoint(s, key);
    if p < |s| {
      assert key <= s[p];
    }
    if q < |s| {
      assert key <= s[q];
    }
  }

  /** Inserting an absent key at its insertion point keeps a strictly increasing sequence strictly increasing. */
  lemma InsertKeepsStrict(s: seq<int>, key: int)
    requires StrictlyIncreasing(s) && key !in s
    ensures StrictlyIncreasing(InsertAt(s, InsertionPoint(s, key), key))
    ensures key in InsertAt(s, InsertionPoint(s, key), key)
    ensures |InsertAt(s, InsertionPoint(s, key), key)| == |s| + 1
  {
    var p := InsertionPoint(s, key);
    var r := InsertAt(s, p, key);
    assert r[p] == key;
    InsertionPointSplits(s, key);
    forall i, j | 0 <= i < j < |r| ensures r[i] < r[j] {
      if j < p {
        assert r[i] == s[i] && r[j] == s[j];
      } else if j == p {
        assert r[i] == s[i];
      } else if i < p {
        assert r[i] == s[i] && r[j] == s[j - 1];
        assert s[j - 1] != key;
      } else if i == p {
        assert r[j] == s[j - 1] && s[j - 1] != key;
      } else {
        assert r[i] == s[i - 1] && r[j] == s[j - 1];
      }
    }
  }

  /** The same for a non-decreasing sequence and any key. */
  lemma InsertKeepsNonDecreasing(s: seq<int>, key: int)
    requires NonDecreasing(s)
    ensures NonDecreasing(InsertAt(s, InsertionPoint(s, key), key))
  {
    var p := InsertionPoint(s, key);
    var r := InsertAt(s, p, key);
    InsertionPointSplits(s, key);
    forall i, j | 0 <= i < j < |r| ensures r[i] <= r[j] {
      if j < p {
        assert r[i] == s[i] && r[j] == s[j];
      } else if j == p {
        assert r[i] == s[i];
      } else if i < p {
        assert r[i] == s[i] && r[j] == s[j - 1];
      } else if i == p {
        assert r[j] == s[j - 1];
      } else {
        assert r[i] == s[i - 1] && r[j] == s[j - 1];
      }
    }
  }

  /**
   * The keys an insert leaves behind when it fails after the key shift: the element
   * at `i` appears twice and the last element drops out of the used range.
   */
  function ShiftedDuplicate(s: seq<int>, i: nat): seq<int>
    requires i < |s|
  {
    s[..i + 1] + s[i..|s| - 1]
  }

  lemma ShiftedDuplicateNonDecreasing(s: seq<int>, i: nat)
    requires i < |s| && NonDecreasing(s)
    ensures NonDecreasing(ShiftedDuplicate(s, i))
  {
    var r := ShiftedDuplicate(s, i);
    forall a, b | 0 <= a < b < |r| ensures r[a] <= r[b] {
      var x := if a <= i then a else a - 1;
      var y := if b <= i then b else b - 1;
      assert r[a] == s[x] && r[b] == s[y] && x <= y;
    }
  }

  /** Removing an element keeps the order properties. */
  lemma RemoveKeepsOrder(s: seq<int>, i: nat)
    requires i < |s|
    ensures NonDecreasing(s) ==> NonDecreasing(Without(s, i))
    ensures StrictlyIncreasing(s) ==> StrictlyIncreasing(Without(s, i)) && s[i] !in Without(s, i)
  {
    var r := Without(s, i);
    forall a | 0 <= a < |r| ensures r[a] == s[if a < i then a else a + 1] {
    }
    if StrictlyIncreasing(s) {
      forall a | 0 <= a < |r| ensures r[a] != s[i] {
        assert r[a] == s[if a < i then a else a + 1];
      }
    }
  }

  // ---------------------------------------------------------------------------
  // Capacity arithmetic

  /** The capacity EnsureCapacity picks, with the int32 doubling and the unsigned cap test as written. */
  function NewCapacity(length: int, min: int): int
  {
    var doubled := if length == 0 then DefaultCapacity else Clr.Wrap32(length * 2);
    var capped := if Clr.AsUInt32(doubled) > MaxArrayLength then MaxArrayLength else doubled;
    if capped < min then min else capped
  }

  /**
   * For every array length the runtime allows, the wrap-around never shows: the new
   * capacity is 4 for an empty array, else twice the length capped at MaxArrayLength,
   * and in both cases raised to at least `min`.
   */
  lemma NewCapacityGrows(length: int, min: int)
    requires 0 <= length <= MaxArrayLength
    ensures var grown := if length == 0 then DefaultCapacity
                         else if 2 * length > MaxArrayLength then MaxArrayLength
                         else 2 * length;
            NewCapacity(length, min) == (if grown < min then min else grown)
    ensures NewCapacity(length, min) >= min && NewCapacity(length, min) > 0
    ensures length > 0 && min <= MaxArrayLength ==> NewCapacity(length, min) <= MaxArrayLength
  {
    if length > 0 {
      if 2 * length < 0x8000_0000 {
        assert Clr.Wrap32(length * 2) == 2 * length;
      } else {
        assert Clr.Wrap32(length * 2) == 2 * length - 0x1_0000_0000;
      }
    }
  }

  /** TrimExcess shrinks when the count is below 90% of the capacity, truncated. */
  function TrimThreshold(capacity: nat): nat
  {
    capacity * 9 / 10
  }

  // ---------------------------------------------------------------------------
  // Array.Copy on a buffer: one step right or left

  /** Array.Copy(s, index, s, index + 1, n - index): s[index..n) moves one step right. */
  function ShiftedRight<T>(s: seq<T>, index: nat, n: nat): (r: seq<T>)
    requires index <= n < |s|
    ensures |r| == |s|
  {
    s[..index + 1] + s[index..n] + s[n + 1..]
  }

  /** Entry by entry: the prefix up to `index` stays, s[index..n) moves up one, the tail stays. */
  lemma ShiftedRightAt<T>(s: seq<T>, index: nat, n: nat)
    requires index <= n < |s|
    ensures forall k :: 0 <= k <= index ==> ShiftedRight(s, index, n)[k] == s[k]
    ensures forall k :: index < k <= n ==> ShiftedRight(s, index, n)[k] == s[k - 1]
    ensures forall k :: n < k < |s| ==> ShiftedRight(s, index, n)[k] == s[k]
  {
  }

  /** Array.Copy(s, index + 1, s, index, n - index): s[index + 1..n + 1) moves one step left. */
  function ShiftedLeft<T>(s: seq<T>, index: nat, n: nat): (r: seq<T>)
    requires index <= n < |s|
    ensures |r| == |s|
  {
    s[..index] + s[index + 1..n + 1] + s[n..]
  }

  /** Entry by entry: the prefix before `index` stays, s[index + 1..n + 1) moves down one, the tail stays. */
  lemma ShiftedLeftAt<T>(s: seq<T>, index: nat, n: nat)
    requires index <= n < |s|
    ensures forall k :: 0 <= k < index ==> ShiftedLeft(s, index, n)[k] == s[k]
    ensures forall k :: index <= k < n ==> ShiftedLeft(s, index, n)[k] == s[k + 1]
    ensures forall k :: n <= k < |s| ==> ShiftedLeft(s, index, n)[k] == s[k]
  {
  }

  /** A right shift followed by a write at `index` inserts into the first `n` elements. */
  lemma ShiftRightInserts<T>(s: seq<T>, index: nat, n: nat, x: T)
    requires index <= n < |s|
    ensures ShiftedRight(s, index, n)[index := x][..n + 1] == InsertAt(s[..n], index, x)
  {
    ShiftedRightAt(s, index, n);
    var r := ShiftedRight(s, index, n)[index := x];
    var e := InsertAt(s[..n], index, x);
    assert |r[..n + 1]| == |e|;
    forall k | 0 <= k < n + 1 ensures r[k] == e[k] {
      if k < index {
        assert e[k] == s[k];
      } else if k > index {
        assert e[k] == s[..n][k - 1];
      }
    }
  }

  /**
   * Insert1's effect on one buffer: s[index..n) moves one step right when index < n,
   * then `x` is written at `index`.
   */
  function InsertedColumn<T>(s: seq<T>, index: nat, n: nat, x: T): (r: seq<T>)
    requires index <= n < |s|
    ensures |r| == |s|
  {
    (if index < n then ShiftedRight(s, index, n) else s)[index := x]
  }

  /** Over the first n + 1 entries that is an insertion; the entries past n stay. */
  lemma InsertedColumnInserts<T>(s: seq<T>, index: nat, n: nat, x: T)
    requires index <= n < |s|
    ensures InsertedColumn(s, index, n, x)[..n + 1] == InsertAt(s[..n], index, x)
    ensures InsertedColumn(s, index, n, x)[n + 1..] == s[n + 1..]
  {
    if index < n {
      ShiftRightInserts(s, index, n, x);
    } else {
      WriteAtEndInserts(s, n, x);
    }
  }

  /** A right shift alone leaves the element at `index` twice in the first `n`. */
  lemma ShiftRightDuplicates(s: seq<int>, index: nat, n: nat)
    requires index < n < |s|
    ensures ShiftedRight(s, index, n)[..n] == ShiftedDuplicate(s[..n], index)
  {
    ShiftedRightAt(s, index, n);
    var r := ShiftedRight(s, index, n);
    var d := ShiftedDuplicate(s[..n], index);
    assert |r[..n]| == |d|;
    forall k | 0 <= k < n ensures r[k] == d[k] {
      if k <= index {
        assert d[k] == s[k];
      } else {
        assert d[k] == s[k - 1];
      }
    }
  }

  /** Removing what was inserted at the same place gives the sequence back. */
  lemma RemoveUndoesInsert<T>(s: seq<T>, p: nat, x: T)
    requires p <= |s|
    ensures Without(InsertAt(s, p, x), p) == s
  {
    var r := InsertAt(s, p, x);
    assert r[..p] == s[..p] && r[p + 1..] == s[p..];
  }

  /** Removing the last of n + 1 entries keeps the first n. */
  lemma DropLastRemoves<T>(s: seq<T>, n: nat)
    requires n < |s|
    ensures s[..n] == Without(s[..n + 1], n)
  {
    assert s[..n + 1][..n] == s[..n];
  }

  /** The first n entries of `s`, or all of them when there are fewer. */
  function Take<T>(s: seq<T>, n: nat): (r: seq<T>)
    ensures n <= |s| ==> r == s[..n]
  {
    if n <= |s| then s[..n] else s
  }

  /** The same tick types, and every column outside `skip` keeps its first n entries. */
  ghost predicate PrefixesKept<T>(before: map<TickType, seq<T>>, after: map<TickType, seq<T>>, n: nat, skip: set<TickType>)
  {
    after.Keys == before.Keys
    && forall t :: t in after && t !in skip ==> Take(after[t], n) == Take(before[t], n)
  }

  /** Every column keeps its own prefix. */
  lemma PrefixesKeptSame<T>(columns: map<TickType, seq<T>>, n: nat)
    requires forall t :: t in columns ==> n <= |columns[t]|
    ensures PrefixesKept(columns, columns, n, {})
  {
  }

  /** Replacing one column afterwards keeps the prefixes of all the others. */
  lemma PrefixesKeptUpdate<T>(before: map<TickType, seq<T>>, after: map<TickType, seq<T>>, n: nat, k: TickType, x: seq<T>)
    requires PrefixesKept(before, after, n, {}) && k in after
    ensures PrefixesKept(before, after[k := x], n, {k})
  {
  }

  /**
   * The same tick types, and each column's first n entries are its old first n + 1
   * without the one at `index`.
   */
  ghost predicate ColumnsRemoved<T>(before: map<TickType, seq<T>>, after: map<TickType, seq<T>>, index: nat, n: nat)
  {
    after.Keys == before.Keys
    && forall t :: t in after ==>
         index <= n < |before[t]| && n <= |after[t]| && after[t][..n] == Without(before[t][..n + 1], index)
  }

  /** ShiftLeftRemoves for every column of a dictionary. */
  lemma ColumnsShiftedLeftRemove<T>(before: map<TickType, seq<T>>, after: map<TickType, seq<T>>, index: nat, n: nat, length: nat)
    requires after.Keys == before.Keys && Uniform(before, length)
    requires forall t :: t in before ==> index <= n < |before[t]| && after[t] == ShiftedLeft(before[t], index, n)
    ensures ColumnsRemoved(before, after, index, n) && Uniform(after, length)
  {
    forall t | t in after ensures n < |after[t]| && after[t][..n] == Without(before[t][..n + 1], index) {
      ShiftLeftRemoves(before[t], index, n);
    }
  }

  /** DropLastRemoves for every column of a dictionary. */
  lemma ColumnsDropLast<T>(columns: map<TickType, seq<T>>, n: nat)
    requires forall t :: t in columns ==> n < |columns[t]|
    ensures ColumnsRemoved(columns, columns, n, n)
  {
    forall t | t in columns ensures columns[t][..n] == Without(columns[t][..n + 1], n) {
      DropLastRemoves(columns[t], n);
    }
  }

  /** A write at the end of the used part appends. */
  lemma WriteAtEndInserts<T>(s: seq<T>, n: nat, x: T)
    requires n < |s|
    ensures s[n := x][..n + 1] == InsertAt(s[..n], n, x)
  {
    assert InsertAt(s[..n], n, x) == s[..n] + [x] + [];
  }

  /** A left shift removes the element at `index` from the first `n + 1` elements. */
  lemma ShiftLeftRemoves<T>(s: seq<T>, index: nat, n: nat)
    requires index <= n < |s|
    ensures ShiftedLeft(s, index, n)[..n] == Without(s[..n + 1], index)
  {
    ShiftedLeftAt(s, index, n);
    var r := ShiftedLeft(s, index, n);
    var e := Without(s[..n + 1], index);
    assert |r[..n]| == |e|;
    forall k | 0 <= k < n ensures r[k] == e[k] {
      if k < index {
        assert e[k] == s[k];
      } else {
        assert e[k] == s[..n + 1][k + 1];
      }
    }
  }

  /** A new array of `length` default elements holding the first `n` elements of `src`. */
  method CopyToNew<T(0)>(src: array<T>, n: nat, length: nat) returns (dst: array<T>)
    requires n <= src.Length && n <= length
    ensures fresh(dst) && dst.Length == length
    ensures dst[..n] == src[..n]
  {
    dst := new T[length];
    var i := 0;
    while i < n
      invariant 0 <= i <= n
      invariant forall k :: 0 <= k < i ==> dst[k] == src[k]
    {
      dst[i] := src[i];
      i := i + 1;
    }
    assert dst[..n] == src[..n];
  }

  /** ShiftedRight in place on an array. */
  method ShiftRight<T>(a: array<T>, index: nat, n: nat)
    requires index <= n < a.Length
    modifies a
    ensures a[..] == ShiftedRight(old(a[..]), index, n)
  {
    var i := n;
    while i > index
      invariant index <= i <= n
      invariant forall k :: 0 <= k <= i ==> a[k] == old(a[k])
      invariant forall k :: i < k <= n ==> a[k] == old(a[k - 1])
      invariant forall k :: n < k < a.Length ==> a[k] == old(a[k])
    {
      a[i] := a[i - 1];
      i := i - 1;
    }
    ShiftedRightAt(old(a[..]), index, n);
    assert a[..] == ShiftedRight(old(a[..]), index, n);
  }

  /** ShiftedLeft in place on an array. */
  method ShiftLeft<T>(a: array<T>, index: nat, n: nat)
    requires index <= n < a.Length
    modifies a
    ensures a[..] == ShiftedLeft(old(a[..]), index, n)
  {
    var i := index;
    while i < n
      invariant index <= i <= n
      invariant forall k :: 0 <= k < index ==> a[k] == old(a[k])
      invariant forall k :: index <= k < i ==> a[k] == old(a[k + 1])
      invariant forall k :: i <= k < a.Length ==> a[k] == old(a[k])
    {
      a[i] := a[i + 1];
      i := i + 1;
    }
    ShiftedLeftAt(old(a[..]), index, n);
    assert a[..] == ShiftedLeft(old(a[..]), index, n);
  }

  /** In a strictly increasing sequence, the insertion point of a member is its index. */
  lemma InsertionPointOfMember(s: seq<int>, r: nat)
    requires StrictlyIncreasing(s) && r < |s|
    ensures InsertionPoint(s, s[r]) == r
  {
    InsertionPointUnique(s, s[r], r);
  }

  /**
   * Array.BinarySearch over a[0..size): the index of a match, or the bitwise
   * complement -(lo + 1) of the insertion point.
   */
  method BinarySearch(a: array<int>, size: nat, key: int) returns (r: int)
    requires size <= a.Length && NonDecreasing(a[..size])
    ensures 0 <= r ==> r < size && a[r] == key
    ensures r < 0 <==> key !in a[..size]
    ensures r < 0 ==> -(r + 1) == InsertionPoint(a[..size], key)
    ensures 0 <= r && StrictlyIncreasing(a[..size]) ==> r == InsertionPoint(a[..size], key)
  {
    var lo, hi := 0, size - 1;
    while lo <= hi
      invariant 0 <= lo <= hi + 1 <= size
      invariant forall i :: 0 <= i < lo ==> a[i] < key
      invariant forall i :: hi < i < size ==> key < a[i]
    {
      var mid := lo + (hi - lo) / 2;
      if a[mid] == key {
        if StrictlyIncreasing(a[..size]) {
          InsertionPointOfMember(a[..size], mid);
        }
        return mid;
      } else if a[mid] < key {
        forall i | 0 <= i <= mid ensures a[i] < key {
          assert a[..size][i] <= a[..size][mid];
        }
        lo := mid + 1;
      } else {
        forall i | mid <= i < size ensures key < a[i] {
          assert a[..size][mid] <= a[..size][i];
        }
        hi := mid - 1;
      }
    }
    assert forall i :: 0 <= i < size ==> a[..size][i] != key;
    InsertionPointUnique(a[..size], key, lo);
    r := -(lo + 1);
  }

  // ---------------------------------------------------------------------------
  // The value columns: one dictionary per value type, tick type to buffer

  /** The tick types a sequence of (tick type, buffer) pairs names, in order. */
  function TickTypesOf<A>(pairs: seq<(TickType, A)>): (r: seq<TickType>)
    ensures |r| == |pairs| && forall i :: 0 <= i < |pairs| ==> r[i] == pairs[i].0
  {
    if pairs == [] then [] else [pairs[0].0] + TickTypesOf(pairs[1..])
  }

  /** Every column has `length` entries. */
  predicate Uniform<T>(columns: map<TickType, seq<T>>, length: int)
  {
    forall t :: t in columns ==> |columns[t]| == length
  }

  /** A new buffer of `length` entries: the first `n` of `s`, then the default value. */
  function Resized<T>(s: seq<T>, n: nat, length: nat, zero: T): (r: seq<T>)
    requires n <= |s| && n <= length
    ensures |r| == length && r[..n] == s[..n]
    ensures forall k :: n <= k < length ==> r[k] == zero
  {
    s[..n] + seq(length - n, _ => zero)
  }

  // ---------------------------------------------------------------------------
  // The series

  class FinTimeSeries {
    var keys: array<int>
    var values1: map<TickType, seq<real>>
    var values2: map<TickType, seq<UInt32>>
    var size: nat
    var version: int

    /** Every value buffer shares the key capacity and the keys in use are in order. */
    ghost predicate Valid()
      reads this, keys
    {
      size <= keys.Length <= MaxArrayLength
      && Uniform(values1, keys.Length) && Uniform(values2, keys.Length)
      && NonDecreasing(keys[..size])
    }

    /** The keys in use, keys[0..Count). */
    ghost function Keys(): seq<int>
      reads this, keys
      requires size <= keys.Length
    {
      keys[..size]
    }

    /**
     * The tick types stay the same and every column, except those of `skip1` and
     * `skip2`, keeps its first `n` entries.
     */
    twostate predicate ColumnsKept(n: nat, skip1: set<TickType>, skip2: set<TickType>)
      reads this
    {
      PrefixesKept(old(values1), values1, n, skip1) && PrefixesKept(old(values2), values2, n, skip2)
    }

    /** Nothing observable changed. */
    twostate predicate Untouched()
      reads this, keys
    {
      size == old(size) && version == old(version)
      && keys == old(keys) && unchanged(keys)
      && values1 == old(values1) && values2 == old(values2)
    }

    /**
     * What Insert1 leaves behind for index `p`, by outcome:
     * - growing beyond the largest array fails and changes nothing;
     * - a tick type missing from values1 fails after the key shift (the keys in use
     *   then hold the key at `p` twice), changing no column;
     * - otherwise the key and the value are inserted at `p`; every other column keeps
     *   its entries and is not shifted; Count and version grow by one.
     */
    twostate predicate Inserted1(p: nat, key: int, tickType: TickType, value: real, outcome: Outcome)
      requires old(Valid()) && Valid() && p <= old(size)
      reads this, keys
    {
      match outcome
      case Failed(ArrayTooLarge) =>
        old(size) == MaxArrayLength && Untouched()
      case Failed(KeyNotFound) =>
        old(size) < MaxArrayLength && tickType !in old(values1) && Grown()
        && size == old(size) && version == old(version)
        && Keys() == (if p < old(size) then ShiftedDuplicate(old(Keys()), p) else old(Keys()))
        && ColumnsKept(size, {}, {})
      case Done =>
        old(size) < MaxArrayLength && tickType in old(values1) && Grown()
        && size == old(size) + 1 && version == old(version) + 1
        && Keys() == InsertAt(old(Keys()), p, key)
        && ColumnsKept(old(size), {tickType}, {})
        && values1[tickType][..size] == InsertAt(old(values1[tickType][..size]), p, value)
      case Failed(_) => false
    }

    /** The same for Insert2 and values2. */
    twostate predicate Inserted2(p: nat, key: int, tickType: TickType, value: UInt32, outcome: Outcome)
      requires old(Valid()) && Valid() && p <= old(size)
      reads this, keys
    {
      match outcome
      case Failed(ArrayTooLarge) =>
        old(size) == MaxArrayLength && Untouched()
      case Failed(KeyNotFound) =>
        old(size) < MaxArrayLength && tickType !in old(values2) && Grown()
        && size == old(size) && version == old(version)
        && Keys() == (if p < old(size) then ShiftedDuplicate(old(Keys()), p) else old(Keys()))
        && ColumnsKept(size, {}, {})
      case Done =>
        old(size) < MaxArrayLength && tickType in old(values2) && Grown()
        && size == old(size) + 1 && version == old(version) + 1
        && Keys() == InsertAt(old(Keys()), p, key)
        && ColumnsKept(old(size), {}, {tickType})
        && values2[tickType][..size] == InsertAt(old(values2[tickType][..size]), p, value)
      case Failed(_) => false
    }

    /** The capacity after making room for one more entry: grown only when it was full. */
    twostate predicate Grown()
      reads this
    {
      keys.Length == (if old(size) == old(keys.Length) then NewCapacity(old(keys.Length), old(size) + 1) else old(keys.Length))
    }

    /**
     * What RemoveAt leaves behind for an index in range: Count drops by one and the
     * keys and every column of both dictionaries lose their entry at `index`.
     */
    twostate predicate Removed(index: nat)
      requires old(Valid()) && Valid() && index < old(size)
      reads this, keys
    {
      size == old(size) - 1 && version == old(version) + 1 && keys == old(keys)
      && Keys() == Without(old(Keys()), index)
      && ColumnsRemoved(old(values1), values1, index, size)
      && ColumnsRemoved(old(values2), values2, index, size)
    }

    /** The parameterless constructor: no keys, no tick types. */
    constructor ()
      ensures Valid() && size == 0 && version == 0
      ensures keys.Length == 0 && values1 == map[] && values2 == map[]
    {
      keys := new int[0];
      values1 := map[];
      values2 := map[];
      size := 0;
      version := 0;
    }

    /**
     * The constructor taking two lists of tick types: an empty buffer for each, and an
     * ArgumentException when a list names a tick type twice.
     */
    static method WithTickTypes(tickTypes1: seq<TickType>, tickTypes2: seq<TickType>)
      returns (r: Result<FinTimeSeries, SeriesError>)
      ensures r.Ok? <==> NoDuplicates(tickTypes1) && NoDuplicates(tickTypes2)
      ensures r.Err? ==> r.error == DuplicateTickType
      ensures r.Ok? ==> fresh(r.value) && r.value.Valid() && r.value.size == 0 && r.value.version == 0
      ensures r.Ok? ==> r.value.keys.Length == 0
      ensures r.Ok? ==> (forall t :: t in r.value.values1 <==> t in tickTypes1)
      ensures r.Ok? ==> (forall t :: t in r.value.values2 <==> t in tickTypes2)
    {
      var columns1 := EmptyColumns<real>(tickTypes1);
      if columns1.None? {
        return Err(DuplicateTickType);
      }
      var columns2 := EmptyColumns<UInt32>(tickTypes2);
      if columns2.None? {
        return Err(DuplicateTickType);
      }
      var series := new FinTimeSeries();
      series.values1 := columns1.value;
      series.values2 := columns2.value;
      r := Ok(series);
    }

    /**
     * The bulk constructor: it adopts the caller's key array without copying. The
     * caller promises (by Debug.Assert only) ordered keys and value buffers as long as
     * the keys; a tick type named twice raises ArgumentException.
     */
    static method FromArrays(keyArray: array<int>, pairs1: seq<(TickType, seq<real>)>, pairs2: seq<(TickType, seq<UInt32>)>)
      returns (r: Result<FinTimeSeries, SeriesError>)
      requires keyArray.Length <= MaxArrayLength
      requires NonDecreasing(keyArray[..])
      requires forall i :: 0 <= i < |pairs1| ==> |pairs1[i].1| == keyArray.Length
      requires forall i :: 0 <= i < |pairs2| ==> |pairs2[i].1| == keyArray.Length
      ensures r.Ok? <==> NoDuplicates(TickTypesOf(pairs1)) && NoDuplicates(TickTypesOf(pairs2))
      ensures r.Err? ==> r.error == DuplicateTickType
      ensures r.Ok? ==> fresh(r.value) && r.value.Valid() && r.value.version == 0
      ensures r.Ok? ==> r.value.keys == keyArray && r.value.size == keyArray.Length
      ensures r.Ok? ==> forall t :: t in r.value.values1 <==> t in TickTypesOf(pairs1)
      ensures r.Ok? ==> forall t :: t in r.value.values2 <==> t in TickTypesOf(pairs2)
      ensures r.Ok? ==> forall i :: 0 <= i < |pairs1| ==> r.value.values1[pairs1[i].0] == pairs1[i].1
      ensures r.Ok? ==> forall i :: 0 <= i < |pairs2| ==> r.value.values2[pairs2[i].0] == pairs2[i].1
    {
      var columns1 := ColumnsFromPairs(pairs1, keyArray.Length);
      if columns1.None? {
        return Err(DuplicateTickType);
      }
      var columns2 := ColumnsFromPairs(pairs2, keyArray.Length);
      if columns2.None? {
        return Err(DuplicateTickType);
      }
      var series := new FinTimeSeries();
      series.keys := keyArray;
      series.size := keyArray.Length;
      series.values1 := columns1.value;
      series.values2 := columns2.value;
      assert series.keys[..series.size] == keyArray[..];
      r := Ok(series);
    }

    /**
     * The Capacity setter. Equal capacity changes nothing; a capacity below Count
     * throws; a positive one moves keys and every column into new buffers of that
     * length; zero empties the key array and drops every tick type.
     */
    method SetCapacity(value: int) returns (outcome: Outcome)
      requires Valid()
      modifies this
      ensures Valid() && size == old(size) && version == old(version)
      ensures value == old(keys.Length) ==> outcome == Done && Untouched()
      ensures value != old(keys.Length) && value < old(size) ==> outcome == Failed(CapacityTooSmall) && Untouched()
      ensures value != old(keys.Length) && old(size) <= value && MaxArrayLength < value ==>
                outcome == Failed(ArrayTooLarge) && Untouched()
      ensures value != old(keys.Length) && old(size) <= value <= MaxArrayLength ==>
                outcome == Done && keys.Length == value && Keys() == old(Keys())
      ensures value != old(keys.Length) && 0 < value && old(size) <= value <= MaxArrayLength ==>
                fresh(keys) && values1.Keys == old(values1.Keys) && values2.Keys == old(values2.Keys)
                && (forall t :: t in values1 ==> values1[t] == Resized(old(values1[t]), size, value, 0.0))
                && (forall t :: t in values2 ==> values2[t] == Resized(old(values2[t]), size, value, 0))
      ensures value != old(keys.Length) && value == 0 == old(size) ==> values1 == map[] && values2 == map[]
    {
      if value == keys.Length {
        return Done;
      }
      if value < size {
        return Failed(CapacityTooSmall);
      }
      if value > MaxArrayLength {
        return Failed(ArrayTooLarge);
      }
      if value > 0 {
        keys := CopyToNew(keys, size, value);
        values1 := MoveColumns(values1, size, value, 0.0);
        values2 := MoveColumns(values2, size, value, 0);
      } else {
        keys := new int[0];
        values1 := map[];
        values2 := map[];
      }
      outcome := Done;
    }

    /**
     * EnsureCapacity(min), called when Count has reached the capacity: the capacity
     * becomes NewCapacity(capacity, min), which fails only beyond MaxArrayLength.
     */
    method EnsureCapacity(min: int) returns (outcome: Outcome)
      requires Valid() && keys.Length < min
      modifies this
      ensures Valid() && size == old(size) && version == old(version)
      ensures NewCapacity(old(keys.Length), min) > MaxArrayLength ==> outcome == Failed(ArrayTooLarge) && Untouched()
      ensures NewCapacity(old(keys.Length), min) <= MaxArrayLength ==>
                outcome == Done && keys.Length == NewCapacity(old(keys.Length), min) && fresh(keys)
                && values1.Keys == old(values1.Keys) && values2.Keys == old(values2.Keys)
                && Keys() == old(Keys()) && ColumnsKept(size, {}, {})
    {
      NewCapacityGrows(keys.Length, min);
      outcome := SetCapacity(NewCapacity(keys.Length, min));
    }

    /**
     * Insert1(index, key, tickType, value), called with the insertion point of `key`:
     * grow when full, then shift and write; the dictionary lookup of a missing tick
     * type throws after the keys have moved.
     */
    method Insert1(index: nat, key: int, tickType: TickType, value: real) returns (outcome: Outcome)
      requires Valid() && index == InsertionPoint(Keys(), key)
      modifies this, keys
      ensures Valid() && Inserted1(index, key, tickType, value, outcome)
      ensures outcome == Done ==> Keys() == InsertAt(old(Keys()), index, key)
    {
      if tickType in values1 {
        outcome := InsertPresent1(index, key, tickType, value);
      } else {
        outcome := InsertMissing(index, key);
      }
    }

    /**
     * Room for one more entry: EnsureCapacity(Count + 1) when the buffers are full,
     * which fails only when Count is already MaxArrayLength.
     */
    method MakeRoom() returns (outcome: Outcome)
      requires Valid()
      modifies this
      ensures Valid() && size == old(size) && version == old(version)
      ensures keys == old(keys) || fresh(keys)
      ensures old(size) == MaxArrayLength ==> outcome == Failed(ArrayTooLarge) && Untouched()
      ensures old(size) < MaxArrayLength ==>
                outcome == Done && size < keys.Length
                && keys.Length == (if old(size) == old(keys.Length) then NewCapacity(old(keys.Length), old(size) + 1) else old(keys.Length))
                && values1.Keys == old(values1.Keys) && values2.Keys == old(values2.Keys)
                && Keys() == old(Keys()) && ColumnsKept(size, {}, {})
    {
      if size == keys.Length {
        NewCapacityGrows(keys.Length, size + 1);
        outcome := EnsureCapacity(size + 1);
      } else {
        PrefixesKeptSame(values1, size);
        PrefixesKeptSame(values2, size);
        outcome := Done;
      }
    }

    /** Insert1 with a tick type that values1 holds. */
    method InsertPresent1(index: nat, key: int, tickType: TickType, value: real) returns (outcome: Outcome)
      requires Valid() && index == InsertionPoint(Keys(), key) && tickType in values1
      modifies this, keys
      ensures Valid() && Inserted1(index, key, tickType, value, outcome)
      ensures outcome == Done ==> Keys() == InsertAt(old(Keys()), index, key)
    {
      ghost var columns1 := values1;
      outcome := MakeRoom();
      if outcome.Done? {
        ghost var column, n := values1[tickType], size;
        PrefixesKeptUpdate(columns1, values1, n, tickType, InsertedColumn(column, index, n, value));
        outcome := InsertWithRoom1(index, key, tickType, value);
        InsertedColumnInserts(column, index, n, value);
      }
    }

    /**
     * Insert1 or Insert2 with a tick type the dictionary lacks: grow when full, move
     * the keys, then fail on the lookup.
     */
    method InsertMissing(index: nat, key: int) returns (outcome: Outcome)
      requires Valid() && index == InsertionPoint(Keys(), key)
      modifies this, keys
      ensures Valid() && size == old(size) && version == old(version)
      ensures old(size) == MaxArrayLength ==> outcome == Failed(ArrayTooLarge) && Untouched()
      ensures old(size) < MaxArrayLength ==>
                outcome == Failed(KeyNotFound)
                && keys.Length == (if old(size) == old(keys.Length) then NewCapacity(old(keys.Length), old(size) + 1) else old(keys.Length))
                && values1.Keys == old(values1.Keys) && values2.Keys == old(values2.Keys)
                && Keys() == (if index < old(size) then ShiftedDuplicate(old(Keys()), index) else old(Keys()))
                && ColumnsKept(size, {}, {})
    {
      outcome := MakeRoom();
      if outcome.Failed? {
        return;
      }
      outcome := FailAfterKeyShift(index, key);
    }

    /** Insert1 once there is room and the tick type is present: one shift and two writes. */
    method InsertWithRoom1(index: nat, key: int, tickType: TickType, value: real) returns (outcome: Outcome)
      requires Valid() && size < keys.Length && index == InsertionPoint(Keys(), key)
      requires tickType in values1
      modifies this, keys
      ensures Valid() && outcome == Done && keys == old(keys)
      ensures size == old(size) + 1 && version == old(version) + 1
      ensures Keys() == InsertAt(old(Keys()), index, key)
      ensures values1 == old(values1)[tickType := InsertedColumn(old(values1[tickType]), index, old(size), value)]
      ensures values2 == old(values2)
    {
      var column := values1[tickType];
      InsertKeepsNonDecreasing(Keys(), key);
      InsertKeyAt(index, key);
      values1 := values1[tickType := InsertedColumn(column, index, size, value)];
      size := size + 1;
      version := version + 1;
      outcome := Done;
    }

    /** The same for Insert2 and values2. */
    method Insert2(index: nat, key: int, tickType: TickType, value: UInt32) returns (outcome: Outcome)
      requires Valid() && index == InsertionPoint(Keys(), key)
      modifies this, keys
      ensures Valid() && Inserted2(index, key, tickType, value, outcome)
      ensures outcome == Done ==> Keys() == InsertAt(old(Keys()), index, key)
    {
      if tickType in values2 {
        outcome := InsertPresent2(index, key, tickType, value);
      } else {
        outcome := InsertMissing(index, key);
      }
    }

    /** Insert2 with a tick type that values2 holds. */
    method InsertPresent2(index: nat, key: int, tickType: TickType, value: UInt32) returns (outcome: Outcome)
      requires Valid() && index == InsertionPoint(Keys(), key) && tickType in values2
      modifies this, keys
      ensures Valid() && Inserted2(index, key, tickType, value, outcome)
      ensures outcome == Done ==> Keys() == InsertAt(old(Keys()), index, key)
    {
      ghost var columns2 := values2;
      outcome := MakeRoom();
      if outcome.Done? {
        ghost var column, n := values2[tickType], size;
        PrefixesKeptUpdate(columns2, values2, n, tickType, InsertedColumn(column, index, n, value));
        outcome := InsertWithRoom2(index, key, tickType, value);
        InsertedColumnInserts(column, index, n, value);
      }
    }

    /** Insert2 once there is room and the tick type is present: one shift and two writes. */
    method InsertWithRoom2(index: nat, key: int, tickType: TickType, value: UInt32) returns (outcome: Outcome)
      requires Valid() && size < keys.Length && index == InsertionPoint(Keys(), key)
      requires tickType in values2
      modifies this, keys
      ensures Valid() && outcome == Done && keys == old(keys)
      ensures size == old(size) + 1 && version == old(version) + 1
      ensures Keys() == InsertAt(old(Keys()), index, key)
      ensures values2 == old(values2)[tickType := InsertedColumn(old(values2[tickType]), index, old(size), value)]
      ensures values1 == old(values1)
    {
      var column := values2[tickType];
      InsertKeepsNonDecreasing(Keys(), key);
      InsertKeyAt(index, key);
      values2 := values2[tickType := InsertedColumn(column, index, size, value)];
      size := size + 1;
      version := version + 1;
      outcome := Done;
    }

    /**
     * The key half of an insert once there is room: keys[index..Count) moves one step
     * right (when index < Count) and the key is written at `index`.
     */
    method InsertKeyAt(index: nat, key: int)
      requires size < keys.Length && index <= size
      modifies keys
      ensures keys[..] == InsertedColumn(old(keys[..]), index, size, key)
      ensures keys[..size + 1] == InsertAt(old(keys[..size]), index, key)
    {
      if index < size {
        ShiftRight(keys, index, size);
      }
      keys[index] := key;
      InsertedColumnInserts(old(keys[..]), index, size, key);
      assert old(keys[..])[..size] == old(keys[..size]);
    }

    /**
     * An insert whose tick type is missing: the keys from `index` on have moved one
     * step right (or, at the end, the key was written past Count) when the lookup throws.
     */
    method FailAfterKeyShift(index: nat, key: int) returns (outcome: Outcome)
      requires Valid() && size < keys.Length && index == InsertionPoint(Keys(), key)
      modifies keys
      ensures Valid() && outcome == Failed(KeyNotFound)
      ensures Keys() == (if index < size then ShiftedDuplicate(old(Keys()), index) else old(Keys()))
    {
      ghost var before := keys[..];
      if index < size {
        ShiftRight(keys, index, size);
        ShiftRightDuplicates(before, index, size);
        ShiftedDuplicateNonDecreasing(before[..size], index);
      } else {
        keys[index] := key;
        assert keys[..size] == before[..size];
      }
      outcome := Failed(KeyNotFound);
    }

    /**
     * Add1: a key already among the keys in use is refused; otherwise Insert1 at the
     * insertion point the binary search reports. On success the keys in use stay
     * strictly ascending and now hold the key.
     */
    method Add1(key: int, tickType: TickType, value: real) returns (outcome: Outcome)
      requires Valid()
      modifies this, keys
      ensures Valid()
      ensures key in old(Keys()) ==> outcome == Failed(DuplicateKey) && Untouched()
      ensures key !in old(Keys()) ==> Inserted1(InsertionPoint(old(Keys()), key), key, tickType, value, outcome)
      ensures old(StrictlyIncreasing(Keys())) && outcome == Done ==>
                StrictlyIncreasing(Keys()) && key in Keys() && |Keys()| == old(|Keys()|) + 1
    {
      var i := BinarySearch(keys, size, key);
      if i >= 0 {
        return Failed(DuplicateKey);
      }
      ghost var before := Keys();
      outcome := Insert1(-(i + 1), key, tickType, value);
      if outcome == Done && StrictlyIncreasing(before) {
        InsertKeepsStrict(before, key);
      }
    }

    /** The same for Add2 and Insert2. */
    method Add2(key: int, tickType: TickType, value: UInt32) returns (outcome: Outcome)
      requires Valid()
      modifies this, keys
      ensures Valid()
      ensures key in old(Keys()) ==> outcome == Failed(DuplicateKey) && Untouched()
      ensures key !in old(Keys()) ==> Inserted2(InsertionPoint(old(Keys()), key), key, tickType, value, outcome)
      ensures old(StrictlyIncreasing(Keys())) && outcome == Done ==>
                StrictlyIncreasing(Keys()) && key in Keys() && |Keys()| == old(|Keys()|) + 1
    {
      var i := BinarySearch(keys, size, key);
      if i >= 0 {
        return Failed(DuplicateKey);
      }
      ghost var before := Keys();
      outcome := Insert2(-(i + 1), key, tickType, value);
      if outcome == Done && StrictlyIncreasing(before) {
        InsertKeepsStrict(before, key);
      }
    }

    /** IndexOfKey: the index of a matching key in use, or -1 when there is none. */
    method IndexOfKey(key: int) returns (r: int)
      requires Valid()
      ensures -1 <= r < size
      ensures r == -1 <==> key !in Keys()
      ensures 0 <= r ==> keys[r] == key
    {
      var ret := BinarySearch(keys, size, key);
      r := if ret >= 0 then ret else -1;
    }

    /** ContainsKey: whether IndexOfKey finds the key. */
    method ContainsKey(key: int) returns (r: bool)
      requires Valid()
      ensures r <==> key in Keys()
    {
      var i := IndexOfKey(key);
      r := i >= 0;
    }

    /**
     * IndexOfKeyOrBeforeKey: the index of a matching key; otherwise the last key in use
     * below `key` (one before the insertion point), or -1 when every key is above it.
     */
    method IndexOfKeyOrBeforeKey(key: int) returns (r: int)
      requires Valid()
      ensures -1 <= r < size
      ensures key in Keys() ==> 0 <= r && keys[r] == key
      ensures key !in Keys() ==> r == InsertionPoint(Keys(), key) - 1
      ensures key !in Keys() ==> (forall i :: 0 <= i <= r ==> keys[i] < key) && (forall i :: r < i < size ==> key < keys[i])
    {
      r := BinarySearch(keys, size, key);
      if r < 0 {
        r := -(r + 1) - 1;
        InsertionPointSplits(Keys(), key);
        assert forall i :: 0 <= i < size ==> keys[i] == Keys()[i];
      }
    }

    /**
     * The indexer getter: the values1 entry of the tick type at the key; KeyNotFound
     * when the key is not in use or the tick type is missing.
     */
    method GetItem(key: int, tickType: TickType) returns (r: Result<real, SeriesError>)
      requires Valid()
      ensures r.Ok? <==> key in Keys() && tickType in values1
      ensures r.Err? ==> r.error == KeyNotFound
      ensures r.Ok? ==> exists i :: 0 <= i < size && keys[i] == key && r.value == values1[tickType][i]
    {
      var i := IndexOfKey(key);
      if i >= 0 {
        if tickType !in values1 {
          return Err(KeyNotFound);
        }
        return Ok(values1[tickType][i]);
      }
      r := Err(KeyNotFound);
    }

    /**
     * TryGetValue1: no value when the key is not in use; otherwise the entry of the tick
     * type, whose lookup throws KeyNotFound when the tick type is missing.
     */
    method TryGetValue1(key: int, tickType: TickType) returns (r: Result<Option<real>, SeriesError>)
      requires Valid()
      ensures r == Ok(None) <==> key !in Keys()
      ensures r == Err(KeyNotFound) <==> key in Keys() && tickType !in values1
      ensures r.Ok? && r.value.Some? ==> exists i :: 0 <= i < size && keys[i] == key && r.value.value == values1[tickType][i]
    {
      var i := IndexOfKey(key);
      if i >= 0 {
        if tickType !in values1 {
          return Err(KeyNotFound);
        }
        return Ok(Some(values1[tickType][i]));
      }
      r := Ok(None);
    }

    /** The same for TryGetValue2 and values2. */
    method TryGetValue2(key: int, tickType: TickType) returns (r: Result<Option<UInt32>, SeriesError>)
      requires Valid()
      ensures r == Ok(None) <==> key !in Keys()
      ensures r == Err(KeyNotFound) <==> key in Keys() && tickType !in values2
      ensures r.Ok? && r.value.Some? ==> exists i :: 0 <= i < size && keys[i] == key && r.value.value == values2[tickType][i]
    {
      var i := IndexOfKey(key);
      if i >= 0 {
        if tickType !in values2 {
          return Err(KeyNotFound);
        }
        return Ok(Some(values2[tickType][i]));
      }
      r := Ok(None);
    }

    /**
     * The indexer setter: a key in use has its values1 entry overwritten in place
     * (KeyNotFound when the tick type is missing); a new key goes through Insert1.
     */
    method SetItem(key: int, tickType: TickType, value: real) returns (outcome: Outcome)
      requires Valid()
      modifies this, keys
      ensures Valid()
      ensures key in old(Keys()) && tickType !in old(values1) ==> outcome == Failed(KeyNotFound) && Untouched()
      ensures key in old(Keys()) && tickType in old(values1) ==>
                outcome == Done && size == old(size) && version == old(version) + 1
                && keys == old(keys) && unchanged(keys) && values2 == old(values2)
                && exists i :: 0 <= i < size && keys[i] == key
                     && values1 == old(values1)[tickType := old(values1[tickType])[i := value]]
      ensures key !in old(Keys()) ==> Inserted1(InsertionPoint(old(Keys()), key), key, tickType, value, outcome)
    {
      var i := BinarySearch(keys, size, key);
      if i >= 0 {
        if tickType !in values1 {
          return Failed(KeyNotFound);
        }
        Overwrite1(i, tickType, value);
        return Done;
      }
      outcome := Insert1(-(i + 1), key, tickType, value);
    }

    /** The in-place write of the indexer setter: values1[tickType][i] = value, then version++. */
    method Overwrite1(i: nat, tickType: TickType, value: real)
      requires Valid() && i < size && tickType in values1
      modifies this
      ensures Valid() && size == old(size) && version == old(version) + 1
      ensures keys == old(keys) && values2 == old(values2)
      ensures values1 == old(values1)[tickType := old(values1[tickType])[i := value]]
    {
      values1 := values1[tickType := values1[tickType][i := value]];
      version := version + 1;
    }

    /**
     * RemoveAt: an index outside [0, Count) throws and changes nothing; otherwise the
     * entries after it move one step left in the keys and in every column.
     */
    method RemoveAt(index: int) returns (outcome: Outcome)
      requires Valid()
      modifies this, keys
      ensures Valid()
      ensures !(0 <= index < old(size)) ==> outcome == Failed(IndexOutOfRange) && Untouched()
      ensures 0 <= index < old(size) ==> outcome == Done && Removed(index)
    {
      if index < 0 || index >= size {
        return Failed(IndexOutOfRange);
      }
      RemoveWithin(index);
      outcome := Done;
    }

    /**
     * RemoveAt past its range check. Count drops first; when the removed entry was not
     * the last one, the keys and every column move one step left over it.
     */
    method RemoveWithin(index: nat)
      requires Valid() && index < size
      modifies this, keys
      ensures Valid() && Removed(index)
    {
      RemoveKeepsOrder(Keys(), index);
      size := size - 1;
      RemoveKeyAt(index, size);
      values1 := RemoveColumnsAt(values1, index, size, keys.Length);
      values2 := RemoveColumnsAt(values2, index, size, keys.Length);
      version := version + 1;
    }

    /** The key half of RemoveAt, where `n` is the new Count. */
    method RemoveKeyAt(index: nat, n: nat)
      requires index <= n < keys.Length
      modifies keys
      ensures keys[..n] == Without(old(keys[..n + 1]), index)
    {
      if index < n {
        ShiftLeft(keys, index, n);
        ShiftLeftRemoves(old(keys[..]), index, n);
      } else {
        DropLastRemoves(old(keys[..]), n);
      }
      assert old(keys[..])[..n + 1] == old(keys[..n + 1]);
    }

    /**
     * Remove(key): RemoveAt on the key's index. Reports whether the key was in use;
     * with strictly ascending keys the key is then gone.
     */
    method Remove(key: int) returns (removed: bool)
      requires Valid()
      modifies this, keys
      ensures Valid()
      ensures removed <==> key in old(Keys())
      ensures !removed ==> Untouched()
      ensures removed ==> exists i :: 0 <= i < old(size) && old(keys[i]) == key && Removed(i)
      ensures removed && old(StrictlyIncreasing(Keys())) ==> key !in Keys() && StrictlyIncreasing(Keys())
    {
      var i := IndexOfKey(key);
      if i >= 0 {
        ghost var before := Keys();
        RemoveKeepsOrder(before, i);
        var outcome := RemoveAt(i);
      }
      removed := i >= 0;
    }

    /** Clear: Count drops to zero; the capacity and the tick types stay. */
    method Clear()
      requires Valid()
      modifies this
      ensures Valid() && Keys() == [] && version == old(version) + 1
      ensures keys == old(keys) && values1 == old(values1) && values2 == old(values2)
    {
      version := version + 1;
      size := 0;
    }

    /**
     * TrimExcess: when Count is below nine tenths of the capacity, the capacity is set
     * to Count; otherwise nothing changes.
     */
    method TrimExcess() returns (outcome: Outcome)
      requires Valid()
      modifies this
      ensures Valid() && outcome == Done && Keys() == old(Keys())
      ensures old(size) >= TrimThreshold(old(keys.Length)) ==> Untouched()
      ensures old(size) < TrimThreshold(old(keys.Length)) ==>
                keys.Length == size
                && (size == 0 ==> values1 == map[] && values2 == map[])
                && (size > 0 ==>
                      values1.Keys == old(values1.Keys) && values2.Keys == old(values2.Keys)
                      && (forall t :: t in values1 ==> values1[t] == old(values1[t])[..size])
                      && (forall t :: t in values2 ==> values2[t] == old(values2[t])[..size]))
    {
      if size < TrimThreshold(keys.Length) {
        outcome := SetCapacity(size);
      } else {
        outcome := Done;
      }
    }
  }

  /**
   * The foreach loop of the Capacity setter: every tick type's buffer is replaced by
   * a new buffer of `length` entries holding the first `n` old ones.
   */
  method MoveColumns<T>(columns: map<TickType, seq<T>>, n: nat, length: nat, zero: T)
    returns (r: map<TickType, seq<T>>)
    requires n <= length && forall t :: t in columns ==> n <= |columns[t]|
    ensures r.Keys == columns.Keys
    ensures forall t :: t in r ==> r[t] == Resized(columns[t], n, length, zero)
  {
    r := columns;
    var todo := columns.Keys;
    while todo != {}
      invariant todo <= r.Keys && r.Keys == columns.Keys
      invariant forall t :: t in todo ==> r[t] == columns[t]
      invariant forall t :: t in r && t !in todo ==> r[t] == Resized(columns[t], n, length, zero)
      decreases todo
    {
      var t :| t in todo;
      r := r[t := Resized(r[t], n, length, zero)];
      todo := todo - {t};
    }
  }

  /** The foreach loops of RemoveAt: every tick type's buffer moves one step left over `index`. */
  method ShiftColumnsLeft<T>(columns: map<TickType, seq<T>>, index: nat, n: nat)
    returns (r: map<TickType, seq<T>>)
    requires forall t :: t in columns ==> index <= n < |columns[t]|
    ensures r.Keys == columns.Keys
    ensures forall t :: t in r ==> r[t] == ShiftedLeft(columns[t], index, n)
  {
    r := columns;
    var todo := columns.Keys;
    while todo != {}
      invariant todo <= r.Keys && r.Keys == columns.Keys
      invariant forall t :: t in todo ==> r[t] == columns[t]
      invariant forall t :: t in r && t !in todo ==> r[t] == ShiftedLeft(columns[t], index, n)
      decreases todo
    {
      var t :| t in todo;
      r := r[t := ShiftedLeft(r[t], index, n)];
      todo := todo - {t};
    }
  }

  /**
   * The foreach loops of RemoveAt on one dictionary, where `n` is the new Count: each
   * buffer moves one step left over `index` unless that was the last entry in use.
   */
  method RemoveColumnsAt<T>(columns: map<TickType, seq<T>>, index: nat, n: nat, length: nat)
    returns (r: map<TickType, seq<T>>)
    requires index <= n < length && Uniform(columns, length)
    ensures ColumnsRemoved(columns, r, index, n) && Uniform(r, length)
  {
    if index < n {
      r := ShiftColumnsLeft(columns, index, n);
      ColumnsShiftedLeftRemove(columns, r, index, n, length);
    } else {
      r := columns;
      ColumnsDropLast(columns, n);
    }
  }

  /** The constructor's loop over a tick type list: an empty buffer each; None on a repeat. */
  method EmptyColumns<T>(tickTypes: seq<TickType>) returns (r: Option<map<TickType, seq<T>>>)
    ensures r.Some? <==> NoDuplicates(tickTypes)
    ensures r.Some? ==> forall t :: t in r.value <==> t in tickTypes
    ensures r.Some? ==> Uniform(r.value, 0)
  {
    var columns: map<TickType, seq<T>> := map[];
    var i := 0;
    while i < |tickTypes|
      invariant 0 <= i <= |tickTypes|
      invariant forall t :: t in columns <==> t in tickTypes[..i]
      invariant Uniform(columns, 0)
      invariant NoDuplicates(tickTypes[..i])
    {
      if tickTypes[i] in columns {
        assert !NoDuplicates(tickTypes) by {
          var j :| 0 <= j < i && tickTypes[j] == tickTypes[i];
        }
        return None;
      }
      columns := columns[tickTypes[i] := []];
      assert tickTypes[..i + 1] == tickTypes[..i] + [tickTypes[i]];
      i := i + 1;
    }
    assert tickTypes[..i] == tickTypes;
    r := Some(columns);
  }

  /** The bulk constructor's loop over its pairs; None on a repeated tick type. */
  method ColumnsFromPairs<T>(pairs: seq<(TickType, seq<T>)>, length: nat) returns (r: Option<map<TickType, seq<T>>>)
    requires forall i :: 0 <= i < |pairs| ==> |pairs[i].1| == length
    ensures r.Some? <==> NoDuplicates(TickTypesOf(pairs))
    ensures r.Some? ==> Uniform(r.value, length)
    ensures r.Some? ==> forall t :: t in r.value <==> t in TickTypesOf(pairs)
    ensures r.Some? ==> forall i :: 0 <= i < |pairs| ==> r.value[pairs[i].0] == pairs[i].1
  {
    var names := TickTypesOf(pairs);
    var columns: map<TickType, seq<T>> := map[];
    ghost var origin: map<TickType, nat> := map[];
    var i := 0;
    while i < |pairs|
      invariant 0 <= i <= |pairs|
      invariant forall t :: t in columns <==> t in names[..i]
      invariant origin.Keys == columns.Keys
      invariant forall t :: t in columns ==> origin[t] < i && pairs[origin[t]].0 == t && columns[t] == pairs[origin[t]].1
      invariant NoDuplicates(names[..i])
    {
      if pairs[i].0 in columns {
        assert !NoDuplicates(names) by {
          assert names[origin[pairs[i].0]] == names[i];
        }
        return None;
      }
      columns := columns[pairs[i].0 := pairs[i].1];
      origin := origin[pairs[i].0 := i];
      assert names[..i + 1] == names[..i] + [names[i]];
      i := i + 1;
    }
    assert names[..i] == names;
    forall k | 0 <= k < |pairs| ensures columns[pairs[k].0] == pairs[k].1 {
      assert names[k] in names[..i];
      var o := origin[pairs[k].0];
      assert names[o] == names[k];
    }
    r := Some(columns);
  }
}
