/** The binary form in which the edge collector saves its counters, and a reader for it. */
module CoverageExport {
  import opened Bytes
  import opened Wrappers

  /** The `k` lowest base-256 digits of `n`, least significant first: `to_le_bytes`. */
  function LittleEndian(n: nat, k: nat): (s: seq<Byte>)
    ensures |s| == k
  {
    if k == 0 then [] else [n % 256] + LittleEndian(n / 256, k - 1)
  }

  /** The lowest byte comes first. */
  lemma LowestFirst(n: nat)
    requires n < 256 * 256
    ensures LittleEndian(n, 8) == [n % 256, n / 256, 0, 0, 0, 0, 0, 0]
  {
    assert LittleEndian(0, 2) == [0, 0] && LittleEndian(0, 4) == [0, 0] + LittleEndian(0, 2);
    assert LittleEndian(0, 6) == [0, 0] + LittleEndian(0, 4);
  }

  function FromLittleEndian(s: seq<Byte>): nat {
    if s == [] then 0 else s[0] as nat + 256 * FromLittleEndian(s[1..])
  }

  function Pow256(k: nat): nat { if k == 0 then 1 else 256 * Pow256(k - 1) }

  lemma {:induction false} LittleEndianRoundTrip(n: nat, k: nat)
    requires n < Pow256(k)
    ensures FromLittleEndian(LittleEndian(n, k)) == n
  {
    if k > 0 {
      LittleEndianRoundTrip(n / 256, k - 1);
      assert LittleEndian(n, k)[1..] == LittleEndian(n / 256, k - 1);
    }
  }

  const U64_LIMIT: nat := 0x1_0000_0000_0000_0000

  lemma EightBytes(n: nat)
    requires n < U64_LIMIT
    ensures FromLittleEndian(LittleEndian(n, 8)) == n
  {
    assert Pow256(4) == 0x1_0000_0000 by {
      assert Pow256(1) == 256 * Pow256(0) && Pow256(2) == 256 * Pow256(1) && Pow256(3) == 256 * Pow256(2);
    }
    assert Pow256(5) == 256 * Pow256(4) && Pow256(6) == 256 * Pow256(5);
    assert Pow256(7) == 256 * Pow256(6) && Pow256(8) == 256 * Pow256(7);
    LittleEndianRoundTrip(n, 8);
  }

  datatype Dump = Dump(edges: map<nat, nat>, uniquePaths: nat, executions: nat)

  ghost predicate FitsU64(edges: map<nat, nat>, uniquePaths: nat, executions: nat) {
    && |edges| < U64_LIMIT && uniquePaths < U64_LIMIT && executions < U64_LIMIT
    && forall e :: e in edges ==> e < U64_LIMIT && edges[e] < U64_LIMIT
  }

  /** The keys of `m`, each once, in some order. */
  ghost predicate Enumerates(order: seq<nat>, m: map<nat, nat>) {
    && (forall i, j :: 0 <= i < j < |order| ==> order[i] != order[j])
    && (forall e :: e in order <==> e in m)
  }

  lemma {:induction false} EnumerationSize(order: seq<nat>, m: map<nat, nat>)
    requires Enumerates(order, m)
    ensures |order| == |m|
  {
    if order == [] {
      assert m == map[];
    } else {
      var front, last := order[..|order| - 1], order[|order| - 1];
      assert order == front + [last];
      assert Enumerates(front, m - {last});
      EnumerationSize(front, m - {last});
      assert m.Keys == (m - {last}).Keys + {last};
    }
  }

  function Restrict(m: map<nat, nat>, keys: seq<nat>): map<nat, nat> { map e | e in m && e in keys :: m[e] }

  lemma RestrictSnoc(m: map<nat, nat>, keys: seq<nat>, k: nat)
    requires k in m
    ensures Restrict(m, keys + [k]) == Restrict(m, keys)[k := m[k]]
  {
  }

  lemma RestrictAll(m: map<nat, nat>, keys: seq<nat>)
    requires Enumerates(keys, m)
    ensures Restrict(m, keys) == m
  {
  }

  /** Reads `n` records of sixteen bytes. */
  function Entries(s: seq<Byte>, n: nat): map<nat, nat>
    requires |s| >= 16 * n
  {
    if n == 0 then map[]
    else
      var at := 16 * (n - 1);
      Entries(s, n - 1)[FromLittleEndian(s[at..at + 8]) := FromLittleEndian(s[at + 8..at + 16])]
  }

  function Import(data: seq<Byte>): Option<Dump> {
    if |data| < 8 then None
    else
      var n := FromLittleEndian(data[..8]);
      if |data| != 24 + 16 * n then None
      else
        var end := 8 + 16 * n;
        Some(Dump(Entries(data[8..end], n), FromLittleEndian(data[end..end + 8]), FromLittleEndian(data[end + 8..])))
  }

  lemma {:induction false} EntriesLocal(s: seq<Byte>, t: seq<Byte>, n: nat)
    requires |s| >= 16 * n
    ensures Entries(s + t, n) == Entries(s, n)
  {
    if n > 0 {
      var at := 16 * (n - 1);
      EntriesLocal(s, t, n - 1);
      assert (s + t)[at..at + 8] == s[at..at + 8] && (s + t)[at + 8..at + 16] == s[at + 8..at + 16];
    }
  }

  lemma EntriesSnoc(head: seq<Byte>, s: seq<Byte>, n: nat, key: nat, count: nat) returns (longer: seq<Byte>)
    requires |s| == 16 * n && key < U64_LIMIT && count < U64_LIMIT
    ensures longer == s + LittleEndian(key, 8) + LittleEndian(count, 8)
    ensures head + s + LittleEndian(key, 8) + LittleEndian(count, 8) == head + longer
    ensures |longer| == 16 * (n + 1) && Entries(longer, n + 1) == Entries(s, n)[key := count]
  {
    hide LittleEndian, FromLittleEndian;
    var record := LittleEndian(key, 8) + LittleEndian(count, 8);
    longer := s + record;
    assert head + s + LittleEndian(key, 8) + LittleEndian(count, 8) == head + longer;
    EntriesLocal(s, record, n);
    EightBytes(key);
    EightBytes(count);
    assert longer[16 * n..16 * n + 8] == LittleEndian(key, 8);
    assert longer[16 * n + 8..16 * n + 16] == LittleEndian(count, 8);
  }

  lemma FourParts(a: seq<Byte>, b: seq<Byte>, c: seq<Byte>, d: seq<Byte>)
    ensures var s := a + b + c + d;
            && s[..|a|] == a && s[|a|..|a| + |b|] == b
            && s[|a| + |b|..|a| + |b| + |c|] == c && s[|a| + |b| + |c|..] == d
  {
  }

  lemma ImportDump(entries: seq<Byte>, edges: map<nat, nat>, uniquePaths: nat, executions: nat)
    requires FitsU64(edges, uniquePaths, executions)
    requires |entries| == 16 * |edges| && Entries(entries, |edges|) == edges
    ensures Import(LittleEndian(|edges|, 8) + entries + LittleEndian(uniquePaths, 8) + LittleEndian(executions, 8))
         == Some(Dump(edges, uniquePaths, executions))
  {
    hide LittleEndian, FromLittleEndian, Entries;
    var data := LittleEndian(|edges|, 8) + entries + LittleEndian(uniquePaths, 8) + LittleEndian(executions, 8);
    var end := 8 + 16 * |edges|;
    EightBytes(|edges|);
    EightBytes(uniquePaths);
    EightBytes(executions);
    FourParts(LittleEndian(|edges|, 8), entries, LittleEndian(uniquePaths, 8), LittleEndian(executions, 8));
  }
}
