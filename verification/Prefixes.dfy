/** Flow entries as a table stores them, the prefix a mask stands for, and the two linear scans over a table:
    local_resource/pof_flow_table.c. */
module Prefixes {
  import opened Bits
  import opened Bitfield
  import opened Numbers
  import opened Chains
  import opened Trie
  import opened Matching
  import opened TwoIndexes

  const BUFFER_LEN := MAX_FIELD_BYTES * MAX_MATCH_FIELDS

  /** The arrays value and mask of struct entryInfo. */
  type buffer = s: seq<byte> | |s| == BUFFER_LEN witness Zeros()

  function Zeros(): (s: seq<byte>)
    ensures |s| == BUFFER_LEN
  {
    seq(BUFFER_LEN, _ => ZERO)
  }

  /** struct entryInfo, without its place in the hash map and the parts that matching does not look at. */
  datatype Entry = Entry(index: nat, counter_id: nat, priority: nat, value: buffer, mask: buffer)

  /** The number of ones. */
  function Ones(b: seq<bool>): (r: nat)
    ensures r <= |b|
  {
    if b == [] then 0 else Ones(b[..|b| - 1]) + if b[|b| - 1] then 1 else 0
  }

  lemma {:induction false} OnesAppend(a: seq<bool>, b: seq<bool>)
    ensures Ones(a + b) == Ones(a) + Ones(b)
  {
    if b == [] {
      assert a + b == a;
    } else {
      assert (a + b)[..|a + b| - 1] == a + b[..|b| - 1];
      OnesAppend(a, b[..|b| - 1]);
    }
  }

  /** value & (value - 1) has one 1 less. */
  lemma {:induction false} LowestOneCleared(b: seq<bool>, r: seq<bool>)
    requires |r| == |b| && ToNat(b) > 0
    requires forall i :: 0 <= i < |b| ==> r[i] == (b[i] && LowBits(ToNat(b) - 1, |b|)[i])
    ensures Ones(r) == Ones(b) - 1
  {
    var n := |b| - 1;
    var init := b[..n];
    LowBitsStep(ToNat(b) - 1, |b|);
    if b[n] {
      LowBitsToNat(init);
      assert r == init + [false];
    } else {
      LowestOneCleared(init, r[..n]);
      assert r == r[..n] + [false];
    }
  }

  lemma {:induction false} NoOnes(b: seq<bool>)
    requires ToNat(b) == 0
    ensures Ones(b) == 0
  {
    if b != [] { NoOnes(b[..|b| - 1]); }
  }

  /** get1sCountInByte. */
  method Get1sCountInByte(value: byte) returns (count: nat)
    ensures count == Ones(value)
  {
    count := 0;
    var v: byte := value;
    while ToNat(v) > 0
      invariant count + Ones(v) == Ones(value)
      decreases Ones(v)
    {
      count := count + 1;
      var cleared := And(v, LowBits(ToNat(v) - 1, 8));
      LowestOneCleared(v, cleared);
      v := cleared;
    }
    NoOnes(v);
  }

  /** get1sCountInBytes. */
  method Get1sCountInBytes(value: seq<byte>, n: nat) returns (count: nat)
    requires n <= |value|
    ensures count == Ones(BitsOf(value)[..8 * n])
  {
    count := 0;
    var i := 0;
    while i < n
      invariant i <= n
      invariant count == Ones(BitsOf(value)[..8 * i])
    {
      var c := Get1sCountInByte(value[i]);
      forall j | 0 <= j < 8
        ensures BitsOf(value)[8 * i + j] == value[i][j]
      {
        BitsOfAt(value, i, j);
      }
      assert BitsOf(value)[..8 * (i + 1)] == BitsOf(value)[..8 * i] + value[i];
      OnesAppend(BitsOf(value)[..8 * i], value[i]);
      count := count + c;
      i := i + 1;
    }
  }

  /** The bits of a buffer that whole-byte comparisons of a key look at. */
  function Compared(b: buffer, keyLen: nat): (r: seq<bool>)
    requires keyLen <= 8 * BUFFER_LEN
    ensures |r| == 8 * CeilBytes(keyLen)
  {
    BitsOf(b)[..8 * CeilBytes(keyLen)]
  }

  function PrefixLen(e: Entry, keyLen: nat): (n: nat)
    requires keyLen <= 8 * BUFFER_LEN
    ensures n <= 8 * CeilBytes(keyLen)
  {
    Ones(Compared(e.mask, keyLen))
  }

  /** The path an entry is stored at: as many first bits of the value as the mask has ones. */
  function Prefix(e: Entry, keyLen: nat): (p: Path)
    requires keyLen <= 8 * BUFFER_LEN
    ensures |p| == PrefixLen(e, keyLen)
  {
    BitsOf(e.value)[..PrefixLen(e, keyLen)]
  }

  /** A mask that is a prefix of the key: ones first, and none behind the key. */
  predicate PrefixMask(e: Entry, keyLen: nat)
    requires keyLen <= 8 * BUFFER_LEN
  {
    && PrefixLen(e, keyLen) <= keyLen
    && forall i, j :: 0 <= i < j < 8 * CeilBytes(keyLen) && BitsOf(e.mask)[j] ==> BitsOf(e.mask)[i]
  }

  lemma {:induction false} OnesFirst(b: seq<bool>, i: nat)
    requires i < |b| && forall i, j :: 0 <= i < j < |b| && b[j] ==> b[i]
    ensures b[i] <==> i < Ones(b)
  {
    var n := |b| - 1;
    if i < n {
      OnesFirst(b[..n], i);
    } else if n > 0 {
      OnesFirst(b[..n], n - 1);
    }
  }

  /** maskMatch on an entry. */
  ghost predicate EntryMatches(e: Entry, key: seq<byte>, keyLen: nat)
    requires keyLen <= 8 * BUFFER_LEN && CeilBytes(keyLen) <= |key|
  {
    Agree(BitsOf(e.mask), BitsOf(e.value), BitsOf(key), 8 * CeilBytes(keyLen))
  }

  /** An entry with a prefix mask matches exactly the keys that begin with its prefix. */
  lemma PrefixMatch(e: Entry, key: seq<byte>, keyLen: nat)
    requires keyLen <= 8 * BUFFER_LEN && CeilBytes(keyLen) <= |key| && PrefixMask(e, keyLen)
    ensures EntryMatches(e, key, keyLen) <==> BitsOf(key)[..PrefixLen(e, keyLen)] == Prefix(e, keyLen)
  {
    var n := PrefixLen(e, keyLen);
    forall i | 0 <= i < 8 * CeilBytes(keyLen)
      ensures BitsOf(e.mask)[i] <==> i < n
    {
      OnesFirst(Compared(e.mask, keyLen), i);
    }
    if EntryMatches(e, key, keyLen) {
      forall i | 0 <= i < n
        ensures BitsOf(key)[i] == BitsOf(e.value)[i]
      {
        assert BitsOf(e.mask)[i];
      }
    } else if BitsOf(key)[..n] == Prefix(e, keyLen) {
      assert forall i :: 0 <= i < n ==> BitsOf(key)[i] == BitsOf(key)[..n][i] == BitsOf(e.value)[i];
    }
  }

  /** What the scans rank the matching entries by: the number of mask bits, or the priority. */
  function Rank(e: Entry, keyLen: nat, byPrefix: bool): nat
    requires keyLen <= 8 * BUFFER_LEN
  {
    if byPrefix then PrefixLen(e, keyLen) else e.priority
  }

  /** The prefix scan starts from the length 0, so it never takes an entry without mask bits. */
  ghost predicate Candidate(e: Entry, key: seq<byte>, keyLen: nat, byPrefix: bool)
    requires keyLen <= 8 * BUFFER_LEN && CeilBytes(keyLen) <= |key|
  {
    EntryMatches(e, key, keyLen) && (byPrefix ==> PrefixLen(e, keyLen) > 0)
  }

  ghost function Hits(key: seq<byte>, keyLen: nat, byPrefix: bool): Entry -> bool
    requires keyLen <= 8 * BUFFER_LEN && CeilBytes(keyLen) <= |key|
  {
    e => Candidate(e, key, keyLen, byPrefix)
  }

  function Ranks(keyLen: nat, byPrefix: bool): Entry -> nat
    requires keyLen <= 8 * BUFFER_LEN
  {
    e => Rank(e, keyLen, byPrefix)
  }

  /** What a scan in the given order answers. */
  ghost function Best(order: seq<HNode<Entry>>, key: seq<byte>, keyLen: nat, byPrefix: bool): HNode?<Entry>
    requires keyLen <= 8 * BUFFER_LEN && CeilBytes(keyLen) <= |key|
  {
    BestOf(order, Hits(key, keyLen, byPrefix), Ranks(keyLen, byPrefix))
  }

  /** One step of a scan. */
  lemma BestSnoc(order: seq<HNode<Entry>>, k: nat, key: seq<byte>, keyLen: nat, byPrefix: bool)
    requires k < |order| && keyLen <= 8 * BUFFER_LEN && CeilBytes(keyLen) <= |key|
    ensures var best, e := Best(order[..k], key, keyLen, byPrefix), order[k].obj;
      Best(order[..k + 1], key, keyLen, byPrefix) ==
      if Candidate(e, key, keyLen, byPrefix)
         && (best == null || Rank(best.obj, keyLen, byPrefix) < Rank(e, keyLen, byPrefix)) then order[k] else best
  {
    assert order[..k + 1][..k] == order[..k];
  }

  /** The pointer that a trie lookup returns. */
  function Found(p: Ptr<HNode<Entry>>): HNode?<Entry> {
    if p.Null? then null else p.value
  }

  /** The scan that the trie replaces. The trie's answer is the scan's whenever some entry with a non-empty prefix
      matches; otherwise the trie also returns the entry with the empty prefix, which the scan never takes. */
  lemma TrieAnswersScan(live: seq<HNode<Entry>>, order: seq<HNode<Entry>>, key: seq<byte>, keyLen: nat,
                        prefix: Entry -> Path)
    requires 0 < keyLen <= 8 * BUFFER_LEN && CeilBytes(keyLen) <= |key|
    requires forall e :: prefix(e) == Prefix(e, keyLen)
    requires forall x :: x in live <==> x in order
    requires UniqueKeys(live, prefix) && forall x :: x in live ==> PrefixMask(x.obj, keyLen)
    ensures var scan := Best(order, key, keyLen, true);
            Found(LongestPrefix(Indexed(live, prefix), BitsOf(key)[..keyLen], keyLen)) ==
            if scan != null then scan
            else if [] in Indexed(live, prefix) then Indexed(live, prefix)[[]]
            else null
  {
    var c, bits, scan := Indexed(live, prefix), BitsOf(key)[..keyLen], Best(order, key, keyLen, true);
    var len: nat := 0;
    if scan != null {
      len := ScanIsStored(live, order, key, keyLen, prefix, scan);
    }
    forall i: nat | len < i <= keyLen
      ensures bits[..i] !in c
    {
      if bits[..i] in c {
        var longer := StoredIsCandidate(live, order, key, keyLen, prefix, i);
      }
    }
    assert bits[..0] == [];
    LongestPrefixMeaning(c, bits, keyLen, len);
  }

  /** A scan's answer is stored under the first bits of the key. */
  lemma ScanIsStored(live: seq<HNode<Entry>>, order: seq<HNode<Entry>>, key: seq<byte>, keyLen: nat,
                     prefix: Entry -> Path, scan: HNode<Entry>) returns (len: nat)
    requires 0 < keyLen <= 8 * BUFFER_LEN && CeilBytes(keyLen) <= |key|
    requires forall e :: prefix(e) == Prefix(e, keyLen)
    requires forall x :: x in live <==> x in order
    requires UniqueKeys(live, prefix) && forall x :: x in live ==> PrefixMask(x.obj, keyLen)
    requires scan == Best(order, key, keyLen, true)
    ensures len == PrefixLen(scan.obj, keyLen) <= keyLen
    ensures BitsOf(key)[..keyLen][..len] in Indexed(live, prefix)
    ensures Indexed(live, prefix)[BitsOf(key)[..keyLen][..len]] == scan
  {
    len := PrefixLen(scan.obj, keyLen);
    var k := BestMeaning(order, Hits(key, keyLen, true), Ranks(keyLen, true));
    assert scan in order && Candidate(scan.obj, key, keyLen, true);
    MatchIsStored(live, key, keyLen, prefix, scan);
  }

  /** An entry stored under the first i bits of the key is a candidate of rank i, so a scan's answer is as long. */
  lemma StoredIsCandidate(live: seq<HNode<Entry>>, order: seq<HNode<Entry>>, key: seq<byte>, keyLen: nat,
                          prefix: Entry -> Path, i: nat) returns (len: nat)
    requires keyLen <= 8 * BUFFER_LEN && CeilBytes(keyLen) <= |key| && 0 < i <= keyLen
    requires forall e :: prefix(e) == Prefix(e, keyLen)
    requires forall x :: x in live <==> x in order
    requires forall x :: x in live ==> PrefixMask(x.obj, keyLen)
    requires BitsOf(key)[..keyLen][..i] in Indexed(live, prefix)
    ensures var scan := Best(order, key, keyLen, true); scan != null && len == PrefixLen(scan.obj, keyLen) && i <= len
  {
    StoredMatches(live, key, keyLen, prefix, i);
    var x := Indexed(live, prefix)[BitsOf(key)[..keyLen][..i]];
    assert Candidate(x.obj, key, keyLen, true);
    var k := BestMeaning(order, Hits(key, keyLen, true), Ranks(keyLen, true));
    var j :| 0 <= j < |order| && order[j] == x;
    len := PrefixLen(Best(order, key, keyLen, true).obj, keyLen);
  }

  /** What a trie lookup answers: null if and only if no entry matches, and otherwise the one matching entry with
      the longest prefix. */
  lemma LongestMatch(live: seq<HNode<Entry>>, key: seq<byte>, keyLen: nat, prefix: Entry -> Path)
    requires keyLen <= 8 * BUFFER_LEN && CeilBytes(keyLen) <= |key|
    requires forall e :: prefix(e) == Prefix(e, keyLen)
    requires UniqueKeys(live, prefix) && forall x :: x in live ==> PrefixMask(x.obj, keyLen)
    ensures var r := Found(LongestPrefix(Indexed(live, prefix), BitsOf(key)[..keyLen], keyLen));
      && (r == null <==> forall x :: x in live ==> !EntryMatches(x.obj, key, keyLen))
      && (r != null ==> r in live && EntryMatches(r.obj, key, keyLen))
      && (r != null ==> forall x :: x in live && EntryMatches(x.obj, key, keyLen) && x != r ==>
           PrefixLen(x.obj, keyLen) < PrefixLen(r.obj, keyLen))
  {
    var c, bits := Indexed(live, prefix), BitsOf(key)[..keyLen];
    var len := LongestStored(c, bits, keyLen);
    LongestPrefixMeaning(c, bits, keyLen, len);
    if bits[..len] in c {
      StoredMatches(live, key, keyLen, prefix, len);
    }
    forall x | x in live && EntryMatches(x.obj, key, keyLen)
      ensures PrefixLen(x.obj, keyLen) <= len && bits[..len] in c
      ensures PrefixLen(x.obj, keyLen) == len ==> c[bits[..len]] == x
    {
      MatchIsStored(live, key, keyLen, prefix, x);
    }
  }

  /** A matching entry is stored under as many first bits of the key as its mask has ones. */
  lemma MatchIsStored(live: seq<HNode<Entry>>, key: seq<byte>, keyLen: nat, prefix: Entry -> Path, x: HNode<Entry>)
    requires keyLen <= 8 * BUFFER_LEN && CeilBytes(keyLen) <= |key|
    requires forall e :: prefix(e) == Prefix(e, keyLen)
    requires UniqueKeys(live, prefix) && x in live && PrefixMask(x.obj, keyLen) && EntryMatches(x.obj, key, keyLen)
    ensures var bits, n := BitsOf(key)[..keyLen], PrefixLen(x.obj, keyLen);
      n <= keyLen && bits[..n] in Indexed(live, prefix) && Indexed(live, prefix)[bits[..n]] == x
  {
    PrefixMatch(x.obj, key, keyLen);
    IndexedHolds(live, prefix);
    assert BitsOf(key)[..keyLen][..PrefixLen(x.obj, keyLen)] == prefix(x.obj);
  }

  /** An entry stored under the first i bits of the key matches it. */
  lemma StoredMatches(live: seq<HNode<Entry>>, key: seq<byte>, keyLen: nat, prefix: Entry -> Path, i: nat)
    requires keyLen <= 8 * BUFFER_LEN && CeilBytes(keyLen) <= |key| && i <= keyLen
    requires forall e :: prefix(e) == Prefix(e, keyLen)
    requires forall x :: x in live ==> PrefixMask(x.obj, keyLen)
    requires BitsOf(key)[..keyLen][..i] in Indexed(live, prefix)
    ensures var x := Indexed(live, prefix)[BitsOf(key)[..keyLen][..i]];
      x in live && PrefixLen(x.obj, keyLen) == i && EntryMatches(x.obj, key, keyLen)
  {
    IndexedHolds(live, prefix);
    PrefixMatch(Indexed(live, prefix)[BitsOf(key)[..keyLen][..i]].obj, key, keyLen);
    assert BitsOf(key)[..keyLen][..i] == BitsOf(key)[..i];
  }

  /** The longest stored prefix of the first n bits, or 0. */
  lemma {:induction false} LongestStored<P>(c: map<Path, P>, bits: Path, n: nat) returns (len: nat)
    requires n <= |bits|
    ensures len <= n && (len > 0 ==> bits[..len] in c) && forall i: nat :: len < i <= n ==> bits[..i] !in c
  {
    len := n;
    if n > 0 && bits[..n] !in c {
      len := LongestStored(c, bits, n - 1);
    }
  }
}
