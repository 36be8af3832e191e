/** The frequency table of one CPU: repeated "next maximum below the last" over a
    kernel table that is unsorted, holds entries to skip and may hold duplicates. */
module FreqTable {
  import opened Machine

  /** CPUFREQ_TABLE_END and CPUFREQ_ENTRY_INVALID of <linux/cpufreq.h>. */
  const TABLE_END: u32 := 0xFFFF_FFFE
  const ENTRY_INVALID: u32 := 0xFFFF_FFFF

  /** A kernel table: its entries up to the end mark fit an unsigned int counter. */
  ghost predicate Terminated(raw: seq<u32>) {
    TABLE_END in raw && |raw| < U32_RANGE
  }

  /** The entries cpufreq_for_each_valid_entry visits, in order. */
  function ValidEntries(raw: seq<u32>): seq<u32> {
    if raw == [] || raw[0] == TABLE_END then []
    else if raw[0] == ENTRY_INVALID then ValidEntries(raw[1..])
    else [raw[0]] + ValidEntries(raw[1..])
  }

  lemma {:induction false} ValidEntriesBounds(raw: seq<u32>)
    ensures |ValidEntries(raw)| <= |raw|
    ensures forall f | f in ValidEntries(raw) :: f < TABLE_END
  {
    if raw == [] || raw[0] == TABLE_END {
    } else {
      ValidEntriesBounds(raw[1..]);
    }
  }

  /** They are the frequencies before the first end mark, less the invalid ones. */
  lemma {:induction false} ValidEntriesAre(raw: seq<u32>)
    ensures forall f :: f in ValidEntries(raw) <==>
              f < TABLE_END && exists i :: 0 <= i < |raw| && raw[i] == f
                                           && forall j | 0 <= j < i :: raw[j] != TABLE_END
  {
    if raw != [] && raw[0] != TABLE_END {
      var rest := raw[1..];
      ValidEntriesAre(rest);
      forall f ensures f in ValidEntries(raw) <==>
                  f < TABLE_END && exists i :: 0 <= i < |raw| && raw[i] == f
                                               && forall j | 0 <= j < i :: raw[j] != TABLE_END
      {
        if i :| 0 <= i < |raw| && raw[i] == f && forall j | 0 <= j < i :: raw[j] != TABLE_END {
          if i > 0 {
            assert rest[i - 1] == f && forall j | 0 <= j < i - 1 :: rest[j] == raw[j + 1];
          }
        }
        if i :| 0 <= i < |rest| && rest[i] == f && forall j | 0 <= j < i :: rest[j] != TABLE_END {
          assert raw[i + 1] == f && forall j | 0 < j < i + 1 :: raw[j] == rest[j - 1];
        }
      }
    }
  }

  lemma {:induction false} ValidEntriesStop(raw: seq<u32>, rest: seq<u32>)
    requires TABLE_END !in raw
    ensures ValidEntries(raw + ([TABLE_END] + rest)) == ValidEntries(raw)
  {
    var whole := raw + ([TABLE_END] + rest);
    if raw == [] {
      assert whole == [TABLE_END] + rest;
    } else {
      assert whole[0] == raw[0] && whole[1..] == raw[1..] + ([TABLE_END] + rest);
      ValidEntriesStop(raw[1..], rest);
    }
  }

  lemma CountOfFirst(first: u32, rest: seq<u32>, f: u32)
    ensures multiset([first] + rest)[f] == multiset(rest)[f] + if f == first then 1 else 0
  {
  }

  lemma {:induction false} CountWithoutInvalid(raw: seq<u32>, f: u32)
    requires TABLE_END !in raw
    ensures multiset(ValidEntries(raw))[f] == if f == ENTRY_INVALID then 0 else multiset(raw)[f]
  {
    if raw != [] {
      CountWithoutInvalid(raw[1..], f);
      assert raw == [raw[0]] + raw[1..];
      CountOfFirst(raw[0], raw[1..], f);
      CountOfFirst(raw[0], ValidEntries(raw[1..]), f);
    }
  }

  /** Each as often as it stands there. */
  lemma ValidEntriesCount(raw: seq<u32>, rest: seq<u32>, f: u32)
    requires TABLE_END !in raw
    ensures multiset(ValidEntries(raw + ([TABLE_END] + rest)))[f]
         == if f == ENTRY_INVALID then 0 else multiset(raw)[f]
  {
    ValidEntriesStop(raw, rest);
    CountWithoutInvalid(raw, f);
  }

  /** m is the largest positive entry below prev, or 0 when there is none. */
  ghost predicate IsNextMax(entries: seq<u32>, prev: u32, m: u32) {
    && (m == 0 || (m in entries && m < prev))
    && forall f | f in entries && f < prev :: f <= m
  }

  lemma ValidEntriesFrom(raw: seq<u32>, pos: nat)
    requires pos < |raw| && raw[pos] != TABLE_END
    ensures ValidEntries(raw[pos..])
         == (if raw[pos] == ENTRY_INVALID then [] else [raw[pos]]) + ValidEntries(raw[pos + 1..])
  {
    assert raw[pos..][1..] == raw[pos + 1..];
  }

  lemma NextMaxGrows(entries: seq<u32>, prev: u32, m: u32, f: u32)
    requires IsNextMax(entries, prev, m)
    ensures IsNextMax(entries + [f], prev, if m < f < prev then f else m)
  {
  }

  method FindNextMax(raw: seq<u32>, prevMax: u32) returns (max: u32)
    requires Terminated(raw)
    ensures IsNextMax(ValidEntries(raw), prevMax, max)
  {
    max := 0;
    var pos := 0;
    ghost var entries, seen: seq<u32> := ValidEntries(raw), [];
    assert raw[0..] == raw;
    while raw[pos] != TABLE_END
      invariant 0 <= pos < |raw|
      invariant TABLE_END in raw[pos..]
      invariant entries == seen + ValidEntries(raw[pos..])
      invariant IsNextMax(seen, prevMax, max)
      decreases |raw| - pos
    {
      ValidEntriesFrom(raw, pos);
      assert raw[pos..][1..] == raw[pos + 1..];
      if raw[pos] != ENTRY_INVALID {
        NextMaxGrows(seen, prevMax, max, raw[pos]);
        Associative(seen, [raw[pos]], ValidEntries(raw[pos + 1..]));
        seen := seen + [raw[pos]];
        if raw[pos] > max && raw[pos] < prevMax {
          max := raw[pos];
        }
      }
      pos := pos + 1;
    }
  }

  /** Strictly descending while positive, then zeros only. */
  ghost predicate Descending(t: seq<u32>) {
    forall i, j | 0 <= i < j < |t| :: t[i] > t[j] || t[i] == t[j] == 0
  }

  /** What the construction promises: one slot per valid entry, descending, and the
      positive slots are exactly the positive valid frequencies. */
  ghost predicate IsTableOf(entries: seq<u32>, t: seq<u32>) {
    && |t| == |entries|
    && Descending(t)
    && forall f | f > 0 :: f in t <==> f in entries
  }

  /** The table is finished after one slot per entry: no positive frequency is left out,
      because the slots filled so far are as many distinct frequencies. */
  ghost predicate IsPartialTable(entries: seq<u32>, t: seq<u32>, next: u32) {
    && Descending(t)
    && (forall f | f in t && f > 0 :: f in entries)
    && (forall f | f in entries && f >= next && f > 0 :: f in t)
    && next == if t == [] then UINT_MAX else t[|t| - 1]
  }

  /** Fills freq_table[0..max_level] as the loop in mi_thermal_init_cpufreq does. */
  method FillTable(raw: seq<u32>, table: array<u32>)
    requires Terminated(raw)
    requires table.Length == |ValidEntries(raw)|
    modifies table
    ensures IsTableOf(ValidEntries(raw), table[..])
  {
    ghost var entries := ValidEntries(raw);
    ValidEntriesBounds(raw);
    var freq := UINT_MAX;
    var i := 0;
    while i < table.Length
      invariant 0 <= i <= table.Length
      invariant IsPartialTable(entries, table[..i], freq)
    {
      ghost var before := table[..i];
      ghost var prev := freq;
      freq := FindNextMax(raw, freq);
      table[i] := freq;
      i := i + 1;
      assert table[..i] == before + [freq];
      PartialTableGrows(entries, before, prev, freq);
    }
    assert table[..i] == table[..];
    PartialTableIsComplete(entries, table[..], freq);
  }

  lemma PartialTableGrows(entries: seq<u32>, t: seq<u32>, prev: u32, m: u32)
    requires IsPartialTable(entries, t, prev)
    requires IsNextMax(entries, prev, m)
    requires forall f | f in entries :: f < UINT_MAX
    ensures IsPartialTable(entries, t + [m], m)
  {
    var t' := t + [m];
    assert t'[|t'| - 1] == m;
    forall i, j | 0 <= i < j < |t'| ensures t'[i] > t'[j] || t'[i] == t'[j] == 0 {
      if j < |t| {
        assert t[i] > t[j] || t[i] == t[j] == 0;
      } else if i < |t| - 1 {
        assert t[i] > t[|t| - 1] || t[i] == t[|t| - 1] == 0;
      }
    }
    forall f | f in entries && f >= m && f > 0 ensures f in t' {
      if f < prev {
        assert f == m;
        assert f == t'[|t|];
      } else {
        assert f in t;
      }
    }
  }

  /** The distinct elements of a sequence. */
  ghost function Elements<T>(s: seq<T>): set<T> {
    set x | x in s
  }

  lemma {:induction false} ElementsBound<T>(s: seq<T>)
    ensures |Elements(s)| <= |s|
  {
    if s != [] {
      ElementsBound(s[1..]);
      assert Elements(s) == {s[0]} + Elements(s[1..]);
    } else {
      assert Elements(s) == {};
    }
  }

  ghost predicate NoDuplicates<T>(s: seq<T>) {
    forall i, j | 0 <= i < j < |s| :: s[i] != s[j]
  }

  lemma {:induction false} DistinctCount<T>(s: seq<T>)
    requires NoDuplicates(s)
    ensures |Elements(s)| == |s|
  {
    if s != [] {
      DistinctCount(s[1..]);
      assert Elements(s) == {s[0]} + Elements(s[1..]);
      assert s[0] !in s[1..];
    } else {
      assert Elements(s) == {};
    }
  }

  lemma SubsetOfEqualSize<T>(a: set<T>, b: set<T>)
    requires a <= b && |a| >= |b|
    ensures a == b
  {
    assert b == a + (b - a);
    assert |b| == |a| + |b - a|;
  }

  lemma PartialTableIsComplete(entries: seq<u32>, t: seq<u32>, next: u32)
    requires IsPartialTable(entries, t, next)
    requires |t| == |entries|
    requires forall f | f in entries :: f < UINT_MAX
    ensures IsTableOf(entries, t)
  {
    if t != [] && next > 0 {
      forall i | 0 <= i < |t| ensures t[i] > 0 {
        assert i < |t| - 1 ==> t[i] > t[|t| - 1];
      }
      DistinctCount(t);
      ElementsBound(entries);
      SubsetOfEqualSize(Elements(t), Elements(entries));
      assert forall f :: f in t <==> f in Elements(t);
      assert forall f :: f in entries <==> f in Elements(entries);
    }
  }

  // ---------------------------------------------------------------------------
  // What the table means
  // ---------------------------------------------------------------------------

  /** The positive slots are a prefix, one per distinct positive frequency; the
      remaining slots, one per duplicate or zero entry, hold 0. */
  lemma PositivePrefix(entries: seq<u32>, t: seq<u32>)
    requires IsTableOf(entries, t)
    ensures var k := |set f | f in entries && f > 0|;
            k <= |t| && forall i | 0 <= i < |t| :: t[i] > 0 <==> i < k
  {
    var k := PositiveCount(t);
    var positive := set f | f in entries && f > 0;
    assert positive == Elements(t[..k]) by {
      forall f | f in positive ensures f in t[..k] {
        var i :| 0 <= i < |t| && t[i] == f;
        assert i < k;
        assert t[..k][i] == f;
      }
    }
    DistinctCount(t[..k]);
  }

  lemma PositiveCount(t: seq<u32>) returns (k: nat)
    requires Descending(t)
    ensures k <= |t| && forall i | 0 <= i < |t| :: t[i] > 0 <==> i < k
  {
    k := 0;
    while k < |t| && t[k] > 0
      invariant 0 <= k <= |t|
      invariant forall i | 0 <= i < k :: t[i] > 0
    {
      k := k + 1;
    }
    forall i | k <= i < |t| ensures t[i] == 0 {
      assert i > k ==> t[k] > t[i] || t[k] == t[i] == 0;
    }
  }

  /** The three clauses of IsTableOf leave no choice: the table is a function of the
      entries, so every CPU of a policy gets the same one. */
  lemma TableIsUnique(entries: seq<u32>, a: seq<u32>, b: seq<u32>)
    requires IsTableOf(entries, a) && IsTableOf(entries, b)
    ensures a == b
  {
    PositivePrefix(entries, a);
    PositivePrefix(entries, b);
    var k := |set f | f in entries && f > 0|;
    SamePositives(entries, a, b, k);
    SamePositives(entries, b, a, k);
    forall i | 0 <= i < k ensures a[i] == b[i] {
      SameRank(a[..k], b[..k], i);
    }
  }

  lemma SamePositives(entries: seq<u32>, a: seq<u32>, b: seq<u32>, k: nat)
    requires IsTableOf(entries, a) && IsTableOf(entries, b)
    requires k <= |a| && forall i | 0 <= i < |a| :: (a[i] > 0 <==> i < k) && (b[i] > 0 <==> i < k)
    ensures forall f | f > 0 && f in a[..k] :: f in b[..k]
  {
    forall f | f > 0 && f in a[..k] ensures f in b[..k] {
      assert f in b;
      var i :| 0 <= i < |b| && b[i] == f;
      assert b[..k][i] == f;
    }
  }

  /** Two strictly descending sequences with the same elements agree slot by slot. */
  lemma {:induction false} SameRank(a: seq<u32>, b: seq<u32>, i: nat)
    requires |a| == |b| && i < |a|
    requires forall m, n | 0 <= m < n < |a| :: a[m] > a[n] && b[m] > b[n]
    requires forall f | f > 0 && (f in a || f in b) :: f in a && f in b
    requires forall m | 0 <= m < |a| :: a[m] > 0 && b[m] > 0
    ensures forall m | 0 <= m <= i :: a[m] == b[m]
  {
    if i > 0 {
      SameRank(a, b, i - 1);
    }
    assert a[i] in b && b[i] in a;
    var p :| 0 <= p < |b| && b[p] == a[i];
    var q :| 0 <= q < |a| && a[q] == b[i];
    assert p >= i && q >= i;
  }

  /** A table without zero or duplicate entries is only reordered. */
  lemma TableIsPermutation(entries: seq<u32>, t: seq<u32>)
    requires IsTableOf(entries, t)
    requires NoDuplicates(entries) && 0 !in entries
    ensures multiset(t) == multiset(entries)
    ensures forall i, j | 0 <= i < j < |t| :: t[i] > t[j]
  {
    DistinctCount(entries);
    PositivePrefix(entries, t);
    assert (set f | f in entries && f > 0) == Elements(entries);
    assert 0 !in t;
    forall f ensures multiset(t)[f] == multiset(entries)[f] {
      Multiplicity(t, f);
      Multiplicity(entries, f);
    }
  }

  lemma {:induction false} Multiplicity(s: seq<u32>, f: u32)
    requires NoDuplicates(s)
    ensures multiset(s)[f] == if f in s then 1 else 0
  {
    if s != [] {
      assert s == [s[0]] + s[1..];
      Multiplicity(s[1..], f);
      assert s[0] !in s[1..];
    }
  }
}
