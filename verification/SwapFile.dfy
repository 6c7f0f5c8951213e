/** The RAM Plus swapfile as blocks with an allocated flag: what resizing and
    writing zeroes do to its shape, and when `PrepareSwapFile` may skip writing. */
module SwapFile {
  import opened Words

  /** One flag for every file-system block of 4096 bytes below the file size. */
  type Blocks = seq<bool>

  /** The data blocks the file occupies; `st_blocks` counts them in units of 512 bytes. */
  function Count(b: Blocks): (n: nat)
    ensures n <= |b|
  {
    if b == [] then 0 else Count(b[..|b| - 1]) + (if b[|b| - 1] then 1 else 0)
  }

  predicate Full(b: Blocks) {
    forall i :: 0 <= i < |b| ==> b[i]
  }

  /** The allocated blocks come first. */
  predicate Prefix(b: Blocks) {
    forall i, j :: 0 <= i < j < |b| && b[j] ==> b[i]
  }

  /** `ftruncate`: growing adds a hole, shrinking drops blocks. */
  function Resize(b: Blocks, n: nat): (r: Blocks)
    ensures |r| == n
  {
    if n <= |b| then b[..n] else b + seq(n - |b|, _ => false)
  }

  /** Writing the blocks from `from` up to `to` allocates them. */
  function Fill(b: Blocks, from: nat, to: nat): (r: Blocks)
    ensures |r| == |b|
    ensures forall i :: 0 <= i < |b| ==> r[i] == (b[i] || from <= i < to)
  {
    seq(|b|, i requires 0 <= i < |b| => b[i] || from <= i < to)
  }

  lemma {:induction false} CountIsSize(b: Blocks)
    ensures Count(b) == |b| <==> Full(b)
  {
    if b != [] {
      var init := b[..|b| - 1];
      CountIsSize(init);
      assert Full(b) <==> Full(init) && b[|b| - 1];
    }
  }

  /** With the allocated blocks first, the count says which they are. */
  lemma {:induction false} PrefixByCount(b: Blocks)
    ensures Prefix(b) <==> forall i :: 0 <= i < |b| ==> (b[i] <==> i < Count(b))
  {
    if b != [] {
      var init, last := b[..|b| - 1], b[|b| - 1];
      PrefixByCount(init);
      if Prefix(b) {
        assert Prefix(init);
        if last {
          assert Full(b);
          CountIsSize(b);
        }
      }
      if forall i :: 0 <= i < |b| ==> (b[i] <==> i < Count(b)) {
        assert Prefix(b);
      }
    }
  }

  /** A shape with `n` leading allocated blocks and no others has count `n`. */
  lemma {:induction false} CountOfShape(b: Blocks, n: nat)
    requires n <= |b| && forall i :: 0 <= i < |b| ==> (b[i] <==> i < n)
    ensures Count(b) == n && Prefix(b)
  {
    if b != [] {
      CountOfShape(b[..|b| - 1], Min(n, |b| - 1));
    }
  }

  lemma ResizeShape(b: Blocks, n: nat)
    requires Prefix(b)
    ensures Prefix(Resize(b, n)) && Count(Resize(b, n)) == Min(Count(b), n)
  {
    PrefixByCount(b);
    CountOfShape(Resize(b, n), Min(Count(b), n));
  }

  /** Writing from inside, or right behind, the allocated prefix keeps the shape. */
  lemma FillShape(b: Blocks, from: nat, to: nat)
    requires Prefix(b) && from <= Count(b) && to <= |b|
    ensures Prefix(Fill(b, from, to)) && Count(Fill(b, from, to)) == Max(Count(b), to)
  {
    PrefixByCount(b);
    CountOfShape(Fill(b, from, to), Max(Count(b), to));
  }

  // ------------------------------------------------------------ the write offset

  /** Where `PrepareSwapFile` starts to write, in blocks: behind the preserved
      part if that much is allocated, otherwise at the beginning. */
  function WriteStart(b: Blocks, n: nat): nat {
    var preserved := Min(|b|, n);
    if Count(b) < preserved then 0 else preserved
  }

  /** Nothing that stays in the file is written again where that much is allocated,
      and everything is otherwise. */
  lemma WriteStartMeaning(b: Blocks, n: nat)
    ensures |b| <= n && Count(b) >= |b| ==> WriteStart(b, n) == |b|
    ensures |b| > n && Count(b) >= n ==> WriteStart(b, n) == n
    ensures Count(b) < |b| && Count(b) < n ==> WriteStart(b, n) == 0
  {
    hide Count;
  }

  /** The file after a successful preparation for `n` blocks. */
  function Prepared(b: Blocks, n: nat): Blocks {
    Fill(Resize(b, n), WriteStart(b, n), n)
  }

  lemma PreparedAt(b: Blocks, n: nat, i: nat)
    requires i < n
    ensures |Prepared(b, n)| == n
    ensures Prepared(b, n)[i] <==> Count(b) < Min(|b|, n) || i >= Min(|b|, n) || b[i]
  {
    hide Count;
  }

  /** For every file, whatever its holes: the preparation leaves no hole exactly
      when it rewrites from the start or the preserved part had none. */
  lemma PreparedFullIff(b: Blocks, n: nat)
    ensures Full(Prepared(b, n)) <==> Count(b) < Min(|b|, n) || Full(b[..Min(|b|, n)])
  {
    hide Count, Prepared;
    var m := Min(|b|, n);
    forall i | 0 <= i < n
      ensures |Prepared(b, n)| == n && (Prepared(b, n)[i] <==> Count(b) < m || i >= m || b[i])
    {
      PreparedAt(b, n, i);
    }
    PreparedLength(b, n);
    if Full(Prepared(b, n)) {
      assert forall i :: 0 <= i < m ==> Prepared(b, n)[i];
    }
  }

  lemma PreparedLength(b: Blocks, n: nat)
    ensures |Prepared(b, n)| == n
  {
    hide Count;
  }

  /** The shortcut is wrong for a file with a hole in front of enough blocks. */
  lemma HoleSurvives()
    ensures !Full(Prepared([false, true], 1))
  {
    PreparedFullIff([false, true], 1);
    assert !Full([false, true][..1]) by {
      assert ![false, true][..1][0];
    }
    assert [false, true][..1] == [false];
    assert Count([false]) == 0;
  }

  /** It is right for every file whose allocated blocks come first, at any size
      and any request, and then allocates no more than what is missing. */
  lemma PrefixIsEnough(b: Blocks, n: nat)
    requires Prefix(b)
    ensures Full(Prepared(b, n)) && |Prepared(b, n)| == n
    ensures WriteStart(b, n) <= Count(Resize(b, n)) && WriteStart(b, n) <= n
    ensures Count(Prepared(b, n)) - Count(Resize(b, n)) == n - Min(Count(b), n)
  {
    PrefixByCount(b);
    ResizeShape(b, n);
    FillShape(Resize(b, n), WriteStart(b, n), n);
    CountIsSize(Prepared(b, n));
  }

  /** A file of the requested size without holes is what the preparation leaves. */
  lemma FullIsPrepared(b: Blocks, n: nat, r: Blocks)
    requires Prefix(b) && Full(r) && |r| == n
    ensures r == Prepared(b, n)
  {
    PrefixIsEnough(b, n);
    hide Prepared, Prefix;
  }
}
