/** Grouping of the resolved rows into authorized_keys files
    (src/serverauth.rs, src/generate.rs): one bucket per (server IP, remote
    user), holding the formatted lines in the order the rows arrive; then the
    optional IP filter; then one output entry per surviving bucket. */
module Buckets {
  import opened Wrappers
  import Text
  import opened Resolution
  import opened Format

  /** The hash map key `(host, sshuser)`. */
  type BucketKey = (string, string)

  function KeyOf(r: AuthRow): BucketKey
  {
    (r.ip, r.sshuser)
  }

  /** The rows of one bucket, in arrival order. */
  function Select(rows: seq<AuthRow>, k: BucketKey): (r: seq<AuthRow>)
    ensures |r| <= |rows|
    ensures forall x :: x in r ==> x in rows && KeyOf(x) == k
    ensures forall i :: 0 <= i < |rows| && KeyOf(rows[i]) == k ==> rows[i] in r
    decreases |rows|
  {
    if |rows| == 0 then []
    else
      var init := rows[..|rows| - 1];
      var last := rows[|rows| - 1];
      assert forall i :: 0 <= i < |init| ==> init[i] == rows[i];
      Select(init, k) + (if KeyOf(last) == k then [last] else [])
  }

  /** The formatted lines of a sequence of rows, one per row. */
  function Lines(rows: seq<AuthRow>): (r: seq<string>)
    ensures |r| == |rows|
  {
    seq(|rows|, i requires 0 <= i < |rows| => FormatLine(rows[i]))
  }

  lemma LinesAppend(rows: seq<AuthRow>, x: AuthRow)
    ensures Lines(rows + [x]) == Lines(rows) + [FormatLine(x)]
  {
    var a, b := Lines(rows + [x]), Lines(rows) + [FormatLine(x)];
    forall i | 0 <= i < |a| ensures a[i] == b[i] {
      if i < |rows| {
        assert (rows + [x])[i] == rows[i];
      }
    }
  }

  /** The number of lines in the buckets `ks`. */
  ghost function SumOver(m: map<BucketKey, seq<string>>, ks: set<BucketKey>): nat
    requires ks <= m.Keys
    decreases ks
  {
    if ks == {} then 0
    else
      var k :| k in ks;
      |m[k]| + SumOver(m, ks - {k})
  }

  /** The number of lines over all buckets. */
  ghost function SumSizes(m: map<BucketKey, seq<string>>): nat
  {
    SumOver(m, m.Keys)
  }

  /** The sum does not depend on which key is taken first. */
  lemma {:induction false} SumOverRemove(m: map<BucketKey, seq<string>>, ks: set<BucketKey>, k: BucketKey)
    requires ks <= m.Keys && k in ks
    ensures SumOver(m, ks) == |m[k]| + SumOver(m, ks - {k})
    decreases ks
  {
    var k' :| k' in ks && SumOver(m, ks) == |m[k']| + SumOver(m, ks - {k'});
    if k' != k {
      SumOverRemove(m, ks - {k'}, k);
      SumOverRemove(m, ks - {k}, k');
      assert ks - {k'} - {k} == ks - {k} - {k'};
    }
  }

  /** Buckets outside `ks` do not contribute. */
  lemma {:induction false} SumOverFrame(m: map<BucketKey, seq<string>>, ks: set<BucketKey>, k: BucketKey, v: seq<string>)
    requires ks <= m.Keys && k !in ks
    ensures SumOver(m[k := v], ks) == SumOver(m, ks)
    decreases ks
  {
    if ks != {} {
      var j :| j in ks && SumOver(m[k := v], ks) == |m[k := v][j]| + SumOver(m[k := v], ks - {j});
      SumOverRemove(m, ks, j);
      SumOverFrame(m, ks - {j}, k, v);
    }
  }

  lemma SumSizesUpdate(m: map<BucketKey, seq<string>>, k: BucketKey, v: seq<string>)
    ensures SumSizes(m[k := v]) == SumSizes(m) - (if k in m then |m[k]| else 0) + |v|
  {
    var m' := m[k := v];
    SumOverRemove(m', m'.Keys, k);
    var rest := m'.Keys - {k};
    SumOverFrame(m, rest, k, v);
    if k in m {
      SumOverRemove(m, m.Keys, k);
      assert m.Keys - {k} == rest;
    } else {
      assert m.Keys == rest;
    }
  }

  lemma SelectAppend(rows: seq<AuthRow>, x: AuthRow, k: BucketKey)
    ensures Select(rows + [x], k) == Select(rows, k) + (if KeyOf(x) == k then [x] else [])
  {
    assert (rows + [x])[..|rows|] == rows;
  }

  /** The buckets that a sequence of rows fills. */
  function RowKeys(rows: seq<AuthRow>): set<BucketKey>
  {
    set r | r in rows :: KeyOf(r)
  }

  lemma TakeOneMore(rows: seq<AuthRow>, i: nat)
    requires i < |rows|
    ensures rows[..i + 1] == rows[..i] + [rows[i]]
    ensures RowKeys(rows[..i + 1]) == RowKeys(rows[..i]) + {KeyOf(rows[i])}
  {
    assert rows[..i + 1] == rows[..i] + [rows[i]];
  }

  /** `hm.entry(key).or_insert_with(Vec::new).push(line)`. */
  function Push(hm: map<BucketKey, seq<string>>, r: AuthRow): map<BucketKey, seq<string>>
  {
    var k := KeyOf(r);
    hm[k := (if k in hm then hm[k] else []) + [FormatLine(r)]]
  }

  /** `hm` holds the buckets of the first `i` rows. */
  ghost predicate Grouped(rows: seq<AuthRow>, i: nat, hm: map<BucketKey, seq<string>>)
    requires i <= |rows|
  {
    && hm.Keys == RowKeys(rows[..i])
    && (forall k :: k in hm ==> hm[k] == Lines(Select(rows[..i], k)))
    && SumSizes(hm) == i
  }

  lemma PushStep(rows: seq<AuthRow>, i: nat, hm: map<BucketKey, seq<string>>)
    requires i < |rows| && Grouped(rows, i, hm)
    ensures Grouped(rows, i + 1, Push(hm, rows[i]))
  {
    PushKeys(rows, i, hm);
    PushContents(rows, i, hm);
  }

  /** A push adds the row's bucket and one line to the total. */
  lemma PushKeys(rows: seq<AuthRow>, i: nat, hm: map<BucketKey, seq<string>>)
    requires i < |rows| && hm.Keys == RowKeys(rows[..i]) && SumSizes(hm) == i
    ensures Push(hm, rows[i]).Keys == RowKeys(rows[..i + 1]) && SumSizes(Push(hm, rows[i])) == i + 1
  {
    var k := KeyOf(rows[i]);
    var hm' := Push(hm, rows[i]);
    TakeOneMore(rows, i);
    SumSizesUpdate(hm, k, hm'[k]);
  }

  lemma {:induction false} SelectNone(rows: seq<AuthRow>, k: BucketKey)
    requires k !in RowKeys(rows)
    ensures Select(rows, k) == []
    decreases |rows|
  {
    if |rows| > 0 {
      var init := rows[..|rows| - 1];
      assert RowKeys(init) <= RowKeys(rows);
      SelectNone(init, k);
    }
  }

  lemma PushContents(rows: seq<AuthRow>, i: nat, hm: map<BucketKey, seq<string>>)
    requires i < |rows| && hm.Keys == RowKeys(rows[..i])
    requires forall k :: k in hm ==> hm[k] == Lines(Select(rows[..i], k))
    ensures var hm' := Push(hm, rows[i]);
      forall k :: k in hm' ==> hm'[k] == Lines(Select(rows[..i + 1], k))
  {
    assert rows[..i + 1] == rows[..i] + [rows[i]];
    forall k | k in Push(hm, rows[i])
      ensures Push(hm, rows[i])[k] == Lines(Select(rows[..i + 1], k))
    {
      PushBucket(rows[..i], rows[i], hm, k);
    }
  }

  /** One bucket after a push: the pushed row's line is appended to its own
      bucket, every other bucket is unchanged. */
  lemma PushBucket(pre: seq<AuthRow>, x: AuthRow, hm: map<BucketKey, seq<string>>, k: BucketKey)
    requires hm.Keys == RowKeys(pre)
    requires forall j :: j in hm ==> hm[j] == Lines(Select(pre, j))
    requires k in Push(hm, x)
    ensures Push(hm, x)[k] == Lines(Select(pre + [x], k))
  {
    SelectAppend(pre, x, k);
    if k == KeyOf(x) {
      if k !in hm {
        SelectNone(pre, k);
      }
      LinesAppend(Select(pre, k), x);
    }
  }

  /** The loop of the generator: every row appends its line to its bucket. */
  method GroupLines(rows: seq<AuthRow>) returns (hm: map<BucketKey, seq<string>>)
    ensures hm.Keys == RowKeys(rows)
    ensures forall k :: k in hm ==> hm[k] == Lines(Select(rows, k))
    ensures forall k :: k in hm ==> |hm[k]| > 0
    ensures SumSizes(hm) == |rows|
  {
    hm := map[];
    var i := 0;
    while i < |rows|
      invariant i <= |rows|
      invariant Grouped(rows, i, hm)
    {
      PushStep(rows, i, hm);
      hm := Push(hm, rows[i]);
      i := i + 1;
    }
    assert rows[..|rows|] == rows;
    forall k | k in hm ensures |hm[k]| > 0 {
      var r :| r in rows && KeyOf(r) == k;
      assert r in Select(rows, k);
    }
  }

  /** `hm.retain(|k, _| k.0.to_string().contains(ip))`. */
  function RetainIp(hm: map<BucketKey, seq<string>>, ip: Option<string>): (r: map<BucketKey, seq<string>>)
    ensures r.Keys <= hm.Keys
    ensures forall k :: k in r ==> r[k] == hm[k]
    ensures forall k :: k in hm ==> (k in r <==> ip.None? || Text.Contains(k.0, ip.value))
  {
    map k | k in hm && (ip.None? || Text.Contains(k.0, ip.value)) :: hm[k]
  }

  /** One generated authorized_keys file: the server, the remote user, the
      lines. */
  datatype Entry = Entry(serverip: string, user: string, keys: seq<string>)

  /** `for (k, v) in hm`: the map turned into entries. The iteration order of
      the hash map is unspecified, so the result is a set. */
  function Entries(hm: map<BucketKey, seq<string>>): (r: set<Entry>)
    ensures forall e :: e in r <==> (e.serverip, e.user) in hm && hm[(e.serverip, e.user)] == e.keys
  {
    set k | k in hm :: Entry(k.0, k.1, hm[k])
  }

  /** No two entries share a server and user. */
  lemma EntriesKeyed(hm: map<BucketKey, seq<string>>, e1: Entry, e2: Entry)
    requires e1 in Entries(hm) && e2 in Entries(hm)
    requires e1.serverip == e2.serverip && e1.user == e2.user
    ensures e1 == e2
  {
  }
}
