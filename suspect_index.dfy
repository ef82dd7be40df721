/**
  The suspect index: a fixed table of 31 chained buckets mapping a clue to
  the suspect it points to, addressed by the djb2 hash of the clue.
*/
module SuspectIndex {
  import opened CString
  import opened Wrappers

  /** Number of buckets, a small prime. */
  const HASH_SIZE := 31
  /** Range of the `unsigned long` accumulator of the hash (64 bits, LP64). */
  const WORD := 0x1_0000_0000_0000_0000

  /**
    The djb2 accumulator after the bytes of `s`: seeded with 5381, each byte
    `c` turns `h` into `(h << 5) + h + c`, that is `h * 33 + c`, wrapping
    modulo 2^64 like the unsigned accumulator.
  */
  function Djb2(s: CStr): nat
  {
    if s == [] then 5381 else (Djb2(s[..|s| - 1]) * 33 + s[|s| - 1]) % WORD
  }

  /** The bucket a key lives in. */
  function Bucket(s: CStr): (idx: nat)
    ensures idx < HASH_SIZE
  {
    Djb2(s) % HASH_SIZE
  }

  /** The hash of a key, computed byte by byte as the program does. */
  method HashString(s: CStr) returns (idx: nat)
    ensures idx == Bucket(s)
    ensures idx < HASH_SIZE
  {
    var h := 5381;
    var i := 0;
    while i < |s|
      invariant 0 <= i <= |s|
      invariant h == Djb2(s[..i])
    {
      assert s[..i + 1][..i] == s[..i];
      h := (h * 33 + s[i]) % WORD;
      i := i + 1;
    }
    assert s[..|s|] == s;
    idx := h % HASH_SIZE;
  }

  /** One association of a chain. */
  datatype Entry = Entry(clue: CStr, suspect: CStr)

  /** The suspect of the first entry of `chain` whose clue is `k`, if any. */
  function ChainFind(chain: seq<Entry>, k: CStr): (r: Option<CStr>)
    ensures r.None? <==> forall j :: 0 <= j < |chain| ==> chain[j].clue != k
    ensures r.Some? ==>
      exists j :: 0 <= j < |chain| && chain[j] == Entry(k, r.value)
                  && forall i :: 0 <= i < j ==> chain[i].clue != k
  {
    if chain == [] then None
    else if chain[0].clue == k then Some(chain[0].suspect)
    else
      var r := ChainFind(chain[1..], k);
      assert forall j :: 1 <= j < |chain| ==> chain[j] == chain[1..][j - 1];
      r
  }

  /** The value a map gives a key, if any. */
  function Get(m: map<CStr, CStr>, k: CStr): Option<CStr> {
    if k in m then Some(m[k]) else None
  }

  /**
    The association left by a table that receives `puts` in order through
    `Table.Insert`: each put with a non-empty clue overrides that clue.
  */
  function Setup(puts: seq<Entry>): map<CStr, CStr>
    decreases |puts|
  {
    if puts == [] then map[]
    else
      var m := Setup(puts[..|puts| - 1]);
      var e := puts[|puts| - 1];
      if e.clue == [] then m else m[e.clue := e.suspect]
  }

  /**
    Lookup after setup: a clue that was never put (or is empty) has no
    suspect, and otherwise the suspect is that of the last put of the clue.
  */
  lemma {:induction false} SetupLookup(puts: seq<Entry>, k: CStr)
    ensures Get(Setup(puts), k).None? <==> (k == [] || forall j :: 0 <= j < |puts| ==> puts[j].clue != k)
    ensures forall j :: 0 <= j < |puts| && k != [] && puts[j].clue == k
                        && (forall i :: j < i < |puts| ==> puts[i].clue != k)
                        ==> Get(Setup(puts), k) == Some(puts[j].suspect)
    decreases |puts|
  {
    if puts != [] {
      var pre := puts[..|puts| - 1];
      SetupLookup(pre, k);
      assert forall j :: 0 <= j < |pre| ==> pre[j] == puts[j];
    }
  }

  /** The table of buckets, created empty and filled before the game starts. */
  class Table {
    const buckets: array<seq<Entry>>
    /** The association the table stands for: the latest suspect given each clue. */
    ghost var Contents: map<CStr, CStr>

    ghost predicate Valid()
      reads this, buckets
    {
      && buckets.Length == HASH_SIZE
      && (forall i, j :: 0 <= i < HASH_SIZE && 0 <= j < |buckets[i]| ==>
            Bucket(buckets[i][j].clue) == i && buckets[i][j].clue in Contents)
      && (forall k {:trigger ChainFind(buckets[Bucket(k)], k)} :: k in Contents ==> ChainFind(buckets[Bucket(k)], k) == Some(Contents[k]))
    }

    /** A table whose every bucket is an empty chain. */
    constructor ()
      ensures Valid() && fresh(buckets)
      ensures Contents == map[]
    {
      var b := new seq<Entry>[HASH_SIZE];
      for i := 0 to HASH_SIZE
        invariant forall j :: 0 <= j < i ==> b[j] == []
      {
        b[i] := [];
      }
      buckets := b;
      Contents := map[];
    }

    /**
      Associates suspect `v` with clue `k` by prepending an entry to the
      chain of `k`'s bucket; an empty clue is ignored. The new association
      shadows any earlier one for the same clue.
    */
    method Insert(k: Clue, v: Name)
      requires Valid()
      modifies this, buckets
      ensures Valid()
      ensures Contents == if k == [] then old(Contents) else old(Contents)[k := v]
      ensures k != [] ==> buckets[Bucket(k)] == [Entry(k, v)] + old(buckets[Bucket(k)])
      ensures forall i :: 0 <= i < HASH_SIZE && (k == [] || i != Bucket(k)) ==> buckets[i] == old(buckets[i])
    {
      if k == [] {
        return;
      }
      var idx := HashString(k);
      var chain := [Entry(k, v)] + buckets[idx];
      buckets[idx] := chain;
      Contents := Contents[k := v];
      forall k' | k' in Contents
        ensures ChainFind(buckets[Bucket(k')], k') == Some(Contents[k'])
      {
        if k' != k && Bucket(k') == idx {
          assert chain[1..] == old(buckets[idx]);
        }
      }
    }

    /** The suspect the table gives clue `k`, walking `k`'s chain from its head. */
    method Find(k: CStr) returns (r: Option<CStr>)
      requires Valid()
      ensures r == Get(Contents, k)
    {
      var idx := HashString(k);
      var chain := buckets[idx];
      var i := 0;
      while i < |chain|
        invariant 0 <= i <= |chain|
        invariant ChainFind(chain[i..], k) == ChainFind(chain, k)
      {
        if Strcmp(chain[i].clue, k) == 0 {
          return Some(chain[i].suspect);
        }
        assert chain[i..][1..] == chain[i + 1..];
        i := i + 1;
      }
      return None;
    }
  }

  /** A table filled by inserting `puts` in order, as the game's setup does before play. */
  method Fill(puts: seq<Entry>) returns (t: Table)
    requires forall j :: 0 <= j < |puts| ==> |puts[j].clue| < MAX_PISTA && |puts[j].suspect| < MAX_NOME
    ensures fresh(t) && t.Valid() && t.Contents == Setup(puts)
  {
    t := new Table();
    for i := 0 to |puts|
      invariant fresh(t) && fresh(t.buckets) && t.Valid()
      invariant t.Contents == Setup(puts[..i])
    {
      t.Insert(puts[i].clue, puts[i].suspect);
      assert puts[..i + 1][..i] == puts[..i];
    }
    assert puts[..|puts|] == puts;
  }
}
