/** fast_int_map.go: two words of four-bit groups, or a hash map once something does not fit. */
module FastIntMaps {
  import opened Bytes
  import opened Words
  import opened Bitmaps
  import opened IntSets
  import opened Nibbles
  import opened Machine

  const NUM_WORDS := 2
  const NUM_BITS := 4
  const NUM_VALS_PER_WORD := 16
  const NUM_VALS := 32
  const MAX_VALUE := 14

  /** Zero when the key is unmapped, otherwise the value plus one. */
  type Group = g: int | 0 <= g < 16

  type Groups = g: seq<Group> | |g| == NUM_VALS witness seq(NUM_VALS, _ => 0)

  type Words2 = s: seq<Word> | |s| == NUM_WORDS witness seq(NUM_WORDS, _ => 0)

  /** The groups of the two words, by key. */
  ghost function GroupsOf(small: Words2): Groups {
    seq(NUM_VALS, k requires 0 <= k < NUM_VALS => Nibble(small[k / 16], k % 16))
  }

  lemma GroupAt(small: Words2, w: nat, p: nat)
    requires w < NUM_WORDS && p < 16
    ensures GroupsOf(small)[16 * w + p] == Nibble(small[w], p)
  {
    assert (16 * w + p) / 16 == w && (16 * w + p) % 16 == p;
  }

  function ValueOf(g: Group): Int64 {
    (g as int) - 1
  }

  lemma GroupAtKey(small: Words2, k: nat)
    requires k < NUM_VALS
    ensures GetGroup(small[k / 16], k % 16 * 4) == GroupsOf(small)[k]
  {
    var p := k % 16;
    assert p * 4 == 4 * p;
    GetGroupIsNibble(small[k / 16], p);
  }

  /** The map that groups stand for, restricted to keys below n. */
  ghost function MapBelow(g: Groups, n: nat): (m: map<Int64, Int64>)
    requires n <= NUM_VALS
    ensures forall k: Int64 :: k in m <==> 0 <= k < n && g[k] != 0
    ensures forall k: Int64 :: k in m ==> m[k] == ValueOf(g[k])
  {
    map k: Int64 | 0 <= k < n && g[k] != 0 :: ValueOf(g[k])
  }

  ghost function SmallMap(small: Words2): map<Int64, Int64> {
    MapBelow(GroupsOf(small), NUM_VALS)
  }

  const NO_WORDS: Words2 := [0, 0]

  class FastIntMap {
    var small: Words2
    var large: Option<map<Int64, Int64>>

    ghost predicate Valid()
      reads this
    {
      large.Some? ==> small == NO_WORDS
    }

    ghost function Contents(): map<Int64, Int64>
      requires Valid()
      reads this
    {
      if large.Some? then large.value else SmallMap(small)
    }

    constructor ()
      ensures Valid() && Contents() == map[] && large == None && small == NO_WORDS
    {
      small, large := NO_WORDS, None;
      NoGroups();
    }

    method Empty() returns (r: bool)
      requires Valid()
      ensures r <==> Contents() == map[]
    {
      r := small == NO_WORDS && (large == None || large.value == map[]);
      EmptySmall(small);
    }

    method Copy() returns (c: FastIntMap)
      requires Valid()
      ensures fresh(c) && c.Valid() && c.Contents() == Contents()
    {
      c := new FastIntMap();
      if large == None {
        c.small := small;
      } else {
        c.large := Some(large.value);
      }
    }

    function GetSmallVal(idx: nat): (v: Int64)
      requires idx < NUM_VALS
      reads this
      ensures v == ValueOf(GroupsOf(small)[idx])
    {
      var word, pos := idx / NUM_VALS_PER_WORD, idx % NUM_VALS_PER_WORD * NUM_BITS;
      GroupAtKey(small, idx);
      GetGroup(small[word], pos) - 1
    }

    method SetSmallVal(idx: nat, val: Int64)
      requires Valid() && large == None && idx < NUM_VALS && -1 <= val <= MAX_VALUE
      modifies this
      ensures Valid() && large == None
      ensures Contents() == if val == -1 then old(Contents()) - {idx} else old(Contents())[idx := val]
    {
      var word := idx / NUM_VALS_PER_WORD;
      var pos := idx % NUM_VALS_PER_WORD * NUM_BITS;
      PutSmall(small, word, idx % NUM_VALS_PER_WORD, idx, val);
      var cleared := small[word := And(small[word], Not(Shl(MASK, pos)))];
      assert cleared[word := Or(cleared[word], Shl(val + 1, pos))]
             == small[word := PutGroup(small[word], pos, val + 1)];
      small := cleared[word := Or(cleared[word], Shl(val + 1, pos))];
    }

    method ToLarge() returns (res: map<Int64, Int64>)
      requires Valid() && large == None
      ensures res == Contents()
    {
      res := map[];
      ghost var g := GroupsOf(small);
      assert MapBelow(g, 0) == map[];
      for i := 0 to NUM_VALS
        invariant res == MapBelow(g, i)
      {
        var val := GetSmallVal(i);
        NextKey(g, i);
        if val != -1 { res := res[i := val]; }
      }
    }

    /** The switch to the large form happens once something no longer fits. */
    method Set(key: Int64, val: Int64)
      requires Valid()
      modifies this
      ensures Valid() && Contents() == old(Contents())[key := val]
      ensures large == None <==> old(large) == None && 0 <= key < NUM_VALS && 0 <= val <= MAX_VALUE
    {
      if large == None {
        if 0 <= key < NUM_VALS && 0 <= val <= MAX_VALUE {
          SetSmallVal(key, val);
          return;
        }
        var l := ToLarge();
        large := Some(l);
        small := NO_WORDS;
      }
      large := Some(large.value[key := val]);
    }

    method Unset(key: Int64)
      requires Valid()
      modifies this
      ensures Valid() && Contents() == old(Contents()) - {key}
      ensures large == None <==> old(large) == None
    {
      if large == None {
        if key < 0 || key >= NUM_VALS { return; }
        SetSmallVal(key, -1);
      } else {
        large := Some(large.value - {key});
      }
    }

    method Get(key: Int64) returns (value: Int64, ok: bool)
      requires Valid()
      ensures ok <==> key in Contents()
      ensures value == if ok then Contents()[key] else -1
    {
      if large == None {
        if key < 0 || key >= NUM_VALS { return -1, false; }
        var val := GetSmallVal(key);
        return val, val != -1;
      }
      if key in large.value { return large.value[key], true; }
      return -1, false;
    }

    method GetDefault(key: Int64) returns (value: Int64)
      requires Valid()
      ensures value == if key in Contents() then Contents()[key] else 0
    {
      var v, ok := Get(key);
      value := if ok then v else 0;
    }

    method Len() returns (res: nat)
      requires Valid()
      ensures res == |Contents()|
    {
      if large.Some? { return |large.value|; }
      res := SmallLen(small);
    }

    /** The greatest key, found from the leading zeros of the highest non-zero word. */
    method MaxKey() returns (r: Int64, ok: bool)
      requires Valid()
      ensures ok <==> Contents() != map[]
      ensures ok ==> IsGreatest(Contents().Keys, r)
    {
      if large == None {
        r, ok := MaxSmallKey(small);
        return;
      }
      if large.value == map[] { return 0, false; }
      r := Largest(large.value.Keys);
      ok := true;
    }

    /** The loop over the words, from the last one down. */
    static method MaxSmallKey(small: Words2) returns (r: Int64, ok: bool)
      ensures ok <==> SmallMap(small) != map[]
      ensures ok ==> IsGreatest(SmallMap(small).Keys, r)
    {
      EmptySmall(small);
      var w := NUM_WORDS - 1;
      while w >= 0
        invariant -1 <= w < NUM_WORDS
        invariant forall j :: w < j < NUM_WORDS ==> small[j] == 0
      {
        if small[w] != 0 {
          var pos := HighestGroup(small[w]);
          HighestKey(small, w, pos);
          return w * NUM_VALS_PER_WORD + pos, true;
        }
        w := w - 1;
      }
      return 0, false;
    }

    static method HighestGroup(w: Word) returns (pos: int)
      requires w != 0
      ensures IsHighestNibble(w, pos)
    {
      LeadingZerosGiveHighest(w);
      pos := NUM_VALS_PER_WORD - 1 - LeadingZeros(w) / NUM_BITS;
    }

    method MaxValue() returns (r: Int64, ok: bool)
      requires Valid()
      ensures ok <==> Contents() != map[]
      ensures ok ==> IsGreatest(Contents().Values, r)
    {
      if large == None {
        var max: Int64 := -1;
        for w := 0 to NUM_WORDS
          invariant TopValue(GroupsOf(small), 16 * w, max)
        {
          if small[w] != 0 {
            max := MaxOfWord(w, max);
          } else {
            ZeroNibbles(0);
            SkipGroups(small, w, 0, max);
          }
        }
        TopIsGreatest(GroupsOf(small), max);
        if max == -1 { return 0, false; }
        return max, true;
      }
      if large.value == map[] { return 0, false; }
      var k :| k in large.value;
      assert large.value[k] in large.value.Values;
      r := Largest(large.value.Values);
      ok := true;
    }

    /** The values of one word, up to its highest group in use. */
    method MaxOfWord(w: nat, start: Int64) returns (max: Int64)
      requires w < NUM_WORDS && small[w] != 0 && TopValue(GroupsOf(small), 16 * w, start)
      ensures TopValue(GroupsOf(small), 16 * (w + 1), max)
    {
      max := start;
      ghost var g := GroupsOf(small);
      var numVals := NUM_VALS_PER_WORD - LeadingZeros(small[w]) / NUM_BITS;
      HighestNibble(small[w], 0);
      ghost var n := 16 * w;
      for i := 0 to numVals
        invariant n == 16 * w + i && TopValue(g, n, max)
      {
        var val := GetSmallVal(w * NUM_VALS_PER_WORD + i);
        NextTop(g, n, max, val);
        if max < val { max := val; }
        n := n + 1;
      }
      forall q | numVals <= q < 16 ensures Nibble(small[w], q) == 0 { HighestNibble(small[w], q); }
      SkipGroups(small, w, numVals, max);
    }

    /** The pairs handed to the callback; their order is unspecified for the large form. */
    method ForEach() returns (visited: seq<(Int64, Int64)>)
      requires Valid()
      ensures Lists(visited, Contents())
    {
      visited := [];
      if large == None {
        ghost var g := GroupsOf(small);
        ghost var m := MapBelow(g, 0);
        assert m == map[];
        for i := 0 to NUM_VALS
          invariant m == MapBelow(g, i) && Lists(visited, m)
        {
          var key: Int64, val := i, GetSmallVal(i);
          m := ListsNext(visited, g, i, m);
          if val != -1 { visited := visited + [(key, val)]; }
        }
      } else {
        visited := ListPairs(large.value);
      }
    }
  }

  lemma NoGroups()
    ensures SmallMap(NO_WORDS) == map[]
  {
    ZeroNibbles(0);
  }

  lemma EmptySmall(small: Words2)
    ensures SmallMap(small) == map[] <==> small == NO_WORDS
  {
    NoGroups();
    if SmallMap(small) == map[] {
      forall w | 0 <= w < NUM_WORDS ensures small[w] == 0 {
        forall p | 0 <= p < 16 ensures Nibble(small[w], p) == 0 {
          GroupAt(small, w, p);
          var k: Int64 := 16 * w + p;
          assert k !in SmallMap(small);
        }
        ZeroNibbles(small[w]);
      }
    }
  }

  /** Writing the group of one key changes the map at that key alone. */
  lemma PutSmall(small: Words2, w: nat, p: nat, idx: nat, val: Int64)
    requires w < NUM_WORDS && p < 16 && idx == 16 * w + p && -1 <= val <= MAX_VALUE
    ensures var s := small[w := PutGroup(small[w], p * 4, val + 1)];
            SmallMap(s) == if val == -1 then SmallMap(small) - {idx} else SmallMap(small)[idx := val]
  {
    var s := small[w := PutGroup(small[w], p * 4, val + 1)];
    forall k | 0 <= k < NUM_VALS ensures GroupsOf(s)[k] == if k == idx then val + 1 else GroupsOf(small)[k] {
      PutKey(small, w, p, k / 16, k % 16, val);
      GroupAt(s, k / 16, k % 16);
      GroupAt(small, k / 16, k % 16);
    }
    MapPut(GroupsOf(small), GroupsOf(s), idx, val);
  }

  lemma PutKey(small: Words2, w: nat, p: nat, v: nat, q: nat, val: Int64)
    requires w < NUM_WORDS && p < 16 && v < NUM_WORDS && q < 16 && -1 <= val <= MAX_VALUE
    ensures var s := small[w := PutGroup(small[w], p * 4, val + 1)];
            Nibble(s[v], q) == if v == w && q == p then val + 1 else Nibble(small[v], q)
  {
    PutGroupNibble(small[w], p, val + 1, q);
  }

  lemma MapPut(g: Groups, h: Groups, idx: nat, val: Int64)
    requires idx < NUM_VALS && -1 <= val <= MAX_VALUE
    requires forall k :: 0 <= k < NUM_VALS ==> h[k] == if k == idx then val + 1 else g[k]
    ensures MapBelow(h, NUM_VALS) ==
            if val == -1 then MapBelow(g, NUM_VALS) - {idx} else MapBelow(g, NUM_VALS)[idx := val]
  {}

  /** The map one key further. */
  lemma NextKey(g: Groups, i: nat)
    requires i < NUM_VALS
    ensures var m := MapBelow(g, i);
            i !in m && MapBelow(g, i + 1) == if g[i] != 0 then m[i := ValueOf(g[i])] else m
  {}

  lemma NextCount(g: Groups, i: nat)
    requires i < NUM_VALS
    ensures |MapBelow(g, i + 1)| == |MapBelow(g, i)| + if g[i] != 0 then 1 else 0
  {
    NextKey(g, i);
    GrownMap(MapBelow(g, i), i, ValueOf(g[i]));
  }

  lemma GrownMap(m: map<Int64, Int64>, k: Int64, v: Int64)
    requires k !in m
    ensures |m[k := v]| == |m| + 1
  {
    assert m[k := v].Keys == m.Keys + {k};
  }

  lemma GroupsOfWord(small: Words2, w: nat)
    requires w < NUM_WORDS
    ensures forall q :: 0 <= q < 16 ==> GroupsOf(small)[16 * w + q] == Nibble(small[w], q)
  {
    forall q | 0 <= q < 16 ensures GroupsOf(small)[16 * w + q] == Nibble(small[w], q) { GroupAt(small, w, q); }
  }

  /** The number of keys below n. */
  function UsedKeys(g: Groups, n: nat): nat
    requires n <= NUM_VALS
  {
    if n == 0 then 0 else UsedKeys(g, n - 1) + if g[n - 1] != 0 then 1 else 0
  }

  lemma {:induction false} UsedKeysCount(g: Groups, n: nat)
    requires n <= NUM_VALS
    ensures UsedKeys(g, n) == |MapBelow(g, n)|
    decreases n
  {
    if n == 0 {
      assert MapBelow(g, 0) == map[];
    } else {
      UsedKeysCount(g, n - 1);
      NextCount(g, n - 1);
    }
  }

  /** The keys of the first p groups of a word that stands behind base, up to n. */
  lemma {:induction false} WordOfKeys(g: Groups, word: Word, p: nat, base: nat, n: nat)
    requires p <= 16 && n == base + p <= NUM_VALS
    requires forall q :: 0 <= q < p ==> g[base + q] == Nibble(word, q)
    ensures UsedKeys(g, n) == UsedKeys(g, base) + UsedBelow(word, p)
    decreases p
  {
    if p > 0 {
      WordOfKeys(g, word, p - 1, base, n - 1);
      assert g[base + (p - 1)] == Nibble(word, p - 1);
    }
  }

  lemma NextWord(small: Words2, w: nat, base: nat)
    requires w < NUM_WORDS && base == 16 * w
    ensures UsedKeys(GroupsOf(small), base + 16) == UsedKeys(GroupsOf(small), base) + UsedBelow(small[w], 16)
  {
    GroupsOfWord(small, w);
    WordOfKeys(GroupsOf(small), small[w], 16, base, base + 16);
  }

  /** The sum of the groups in use over the words. */
  method SmallLen(small: Words2) returns (res: nat)
    ensures res == |SmallMap(small)|
  {
    res := 0;
    ghost var g, base := GroupsOf(small), 0;
    for w := 0 to NUM_WORDS
      invariant base == 16 * w && res == UsedKeys(g, base)
    {
      var n := UsedGroups(small[w]);
      NextWord(small, w, base);
      res := res + n;
      base := base + 16;
    }
    UsedKeysCount(g, base);
  }

  /** One more pair at the end of the list. */
  lemma ListsMore(pairs: seq<(Int64, Int64)>, m: map<Int64, Int64>, k: Int64, v: Int64)
    requires Lists(pairs, m) && k !in m
    ensures Lists(pairs + [(k, v)], m[k := v])
  {
    GrownMap(m, k, v);
  }

  /** The list and the map one key further. */
  lemma ListsNext(visited: seq<(Int64, Int64)>, g: Groups, i: nat, m: map<Int64, Int64>) returns (m': map<Int64, Int64>)
    requires i < NUM_VALS && m == MapBelow(g, i) && Lists(visited, m)
    ensures m' == MapBelow(g, i + 1)
    ensures Lists(if ValueOf(g[i]) != -1 then visited + [(i, ValueOf(g[i]))] else visited, m')
  {
    m' := MapBelow(g, i + 1);
    NextKey(g, i);
    if g[i] != 0 { ListsMore(visited, m, i, ValueOf(g[i])); }
  }

  /** The pairs of a map, each once. */
  ghost predicate Lists(pairs: seq<(Int64, Int64)>, m: map<Int64, Int64>) {
    && |pairs| == |m|
    && forall p :: p in pairs <==> p.0 in m && m[p.0] == p.1
  }

  /** The loop over a hash map, in whatever order its keys come. */
  method ListPairs(m: map<Int64, Int64>) returns (visited: seq<(Int64, Int64)>)
    ensures Lists(visited, m)
  {
    visited := [];
    var left := m.Keys;
    while left != {}
      invariant left <= m.Keys && |visited| + |left| == |m|
      invariant forall p :: p in visited <==> p.0 in m && p.0 !in left && m[p.0] == p.1
      decreases |left|
    {
      var k: Int64 :| k in left;
      visited := visited + [(k, m[k])];
      left := left - {k};
    }
  }

  /** Or-ing the high half of each group into its low half, until the low bit has them all. */
  method UsedGroups(word: Word) returns (n: nat)
    ensures n == UsedBelow(word, 16)
  {
    var v := word;
    var i := NUM_BITS / 2;
    while i > 0
      invariant i == 2 ==> v == word
      invariant i == 1 ==> v == Fold(word, 2)
      invariant i == 0 ==> v == Fold(Fold(word, 2), 1)
      invariant 0 <= i <= 2
    {
      v := Or(v, Shr(v, i));
      i := i / 2;
    }
    PopcountOfGroups(word);
    n := OnesCount(And(v, GROUP_LOW_BIT_MASK));
  }

  lemma HighestKey(small: Words2, w: nat, pos: int)
    requires w < NUM_WORDS && IsHighestNibble(small[w], pos)
    requires forall j :: w < j < NUM_WORDS ==> small[j] == 0
    ensures 0 <= pos < 16 && SmallMap(small) != map[] && IsGreatest(SmallMap(small).Keys, w * 16 + pos)
  {
    var m := SmallMap(small);
    GroupAt(small, w, pos);
    var r: Int64 := 16 * w + pos;
    assert r in m;
    forall k | k in m.Keys ensures k <= r { KeyBound(small, w, pos, k); }
  }

  lemma KeyBound(small: Words2, w: nat, pos: int, k: Int64)
    requires w < NUM_WORDS && IsHighestNibble(small[w], pos)
    requires forall j :: w < j < NUM_WORDS ==> small[j] == 0
    requires k in SmallMap(small)
    ensures k <= 16 * w + pos
  {
    var v, q := k / 16, k % 16;
    GroupAt(small, v, q);
    if v > w || (v == w && q > pos) { NoHigherKey(small, w, pos, v, q); }
  }

  lemma NoHigherKey(small: Words2, w: nat, pos: int, v: nat, q: nat)
    requires w < NUM_WORDS && IsHighestNibble(small[w], pos)
    requires forall j :: w < j < NUM_WORDS ==> small[j] == 0
    requires v < NUM_WORDS && q < 16 && (v > w || (v == w && q > pos))
    ensures Nibble(small[v], q) == 0
  {
    if v > w { ZeroNibbles(small[v]); }
  }

  /** max is the greatest value among the keys below n, or -1 when there is none. */
  ghost predicate TopValue(g: Groups, n: nat, max: Int64)
    requires n <= NUM_VALS
  {
    && max >= -1
    && (max >= 0 ==> exists k :: 0 <= k < n && g[k] == max + 1)
    && forall k :: 0 <= k < n ==> g[k] <= max + 1
  }

  lemma NextTop(g: Groups, n: nat, max: Int64, val: Int64)
    requires n < NUM_VALS && TopValue(g, n, max) && val == ValueOf(g[n])
    ensures TopValue(g, n + 1, if max < val then val else max)
  {}

  lemma SkipGroups(small: Words2, w: nat, i: nat, max: Int64)
    requires w < NUM_WORDS && i <= 16 && TopValue(GroupsOf(small), 16 * w + i, max)
    requires forall q :: i <= q < 16 ==> Nibble(small[w], q) == 0
    ensures TopValue(GroupsOf(small), 16 * (w + 1), max)
  {
    forall k | 16 * w + i <= k < 16 * (w + 1) ensures GroupsOf(small)[k] == 0 {
      GroupAt(small, w, k - 16 * w);
    }
  }

  lemma TopIsGreatest(g: Groups, max: Int64)
    requires TopValue(g, NUM_VALS, max)
    ensures max == -1 <==> MapBelow(g, NUM_VALS) == map[]
    ensures max >= 0 ==> IsGreatest(MapBelow(g, NUM_VALS).Values, max)
  {
    var m := MapBelow(g, NUM_VALS);
    if max >= 0 {
      var k: Int64 :| 0 <= k < NUM_VALS && g[k] == max + 1;
      assert k in m && m[k] == max;
    }
  }

  /** The loop over the keys or values of a hash map, in whatever order they come. */
  method Largest(s: set<Int64>) returns (max: Int64)
    requires s != {}
    ensures IsGreatest(s, max)
  {
    max := MIN_INT;
    var left := s;
    while left != {}
      invariant left <= s
      invariant forall x: Int64 :: x in s && x !in left ==> x <= max
      invariant max == MIN_INT || max in s
      decreases |left|
    {
      var k: Int64 :| k in left;
      if max < k { max := k; }
      left := left - {k};
    }
    var any: Int64 :| any in s;
    assert any <= max;
  }
}
