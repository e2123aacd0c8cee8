/**
 * Sequence-level facts behind the segmented deque of deque.h.
 *
 * The deque's cells are modelled as one virtual address space: the buffers of the map, laid end
 * to end (Concat), with buffer k at addresses [k * B, k * B + B).  The copy and fill loops move
 * values inside that space (Overwrite), and the lemmas here say what each step of each loop does
 * to the stretch of addresses holding the elements, so that the imperative code only has to chain
 * them.
 */
module DequeLayout {
  import opened DequeIterators

  /** cells with the stretch starting at address at replaced by vals. */
  function Overwrite<T>(cells: seq<T>, at: int, vals: seq<T>): (r: seq<T>)
    requires 0 <= at && at + |vals| <= |cells|
    ensures |r| == |cells|
  {
    cells[..at] + vals + cells[at + |vals|..]
  }

  /** Reading an overwritten sequence: inside the stretch vals, elsewhere the old cell. */
  lemma {:induction false} OverwriteAt<T>(cells: seq<T>, at: int, vals: seq<T>, p: int)
    requires 0 <= at && at + |vals| <= |cells| && 0 <= p < |cells|
    ensures Overwrite(cells, at, vals)[p] == if at <= p < at + |vals| then vals[p - at] else cells[p]
  {
  }

  lemma {:induction false} OverwriteEmpty<T>(cells: seq<T>, at: int)
    requires 0 <= at <= |cells|
    ensures Overwrite(cells, at, []) == cells
  {
    assert cells[..at] + cells[at..] == cells;
  }

  lemma {:induction false} OverwriteSnoc<T>(cells: seq<T>, at: int, vals: seq<T>, x: T)
    requires 0 <= at && at + |vals| < |cells|
    ensures Overwrite(cells, at, vals)[at + |vals| := x] == Overwrite(cells, at, vals + [x])
  {
    var a := Overwrite(cells, at, vals)[at + |vals| := x];
    var b := Overwrite(cells, at, vals + [x]);
    forall p | 0 <= p < |cells|
      ensures a[p] == b[p]
    {
      OverwriteAt(cells, at, vals, p);
      OverwriteAt(cells, at, vals + [x], p);
    }
  }

  lemma {:induction false} OverwriteCons<T>(cells: seq<T>, at: int, vals: seq<T>, x: T)
    requires 0 < at && at + |vals| <= |cells|
    ensures Overwrite(cells, at, vals)[at - 1 := x] == Overwrite(cells, at - 1, [x] + vals)
  {
    var a := Overwrite(cells, at, vals)[at - 1 := x];
    var b := Overwrite(cells, at - 1, [x] + vals);
    forall p | 0 <= p < |cells|
      ensures a[p] == b[p]
    {
      OverwriteAt(cells, at, vals, p);
      OverwriteAt(cells, at - 1, [x] + vals, p);
    }
  }

  /**
   * One step of the forward copy loop: the cell at from is still original when written to
   * at + (from - lo), as the destination starts at or before the source or after its end.
   */
  lemma {:induction false} CopyForwardStep<T>(c0: seq<T>, lo: int, from: int, next: int, hi: int, at: int)
    requires 0 <= lo <= from < hi <= |c0| && 0 <= at && (at <= lo || hi <= at) && at + (hi - lo) <= |c0|
    requires next == from + 1
    ensures Overwrite(c0, at, c0[lo..from])[from] == c0[from]
    ensures Overwrite(c0, at, c0[lo..from])[at + (from - lo) := c0[from]] == Overwrite(c0, at, c0[lo..next])
  {
    OverwriteAt(c0, at, c0[lo..from], from);
    OverwriteSnoc(c0, at, c0[lo..from], c0[from]);
    assert c0[lo..from + 1] == c0[lo..from] + [c0[from]];
  }

  /** One step of the backward copy loop: the cell at from is still original when written to at - 1. */
  lemma {:induction false} CopyBackwardStep<T>(c0: seq<T>, lo: int, from: int, prev: int, hi: int, at: int, to: int)
    requires 0 <= lo <= from < hi <= |c0| && from < at && at + (hi - from - 1) <= |c0|
    requires prev == from + 1 && to == at - 1
    ensures Overwrite(c0, at, c0[prev..hi])[from] == c0[from]
    ensures Overwrite(c0, at, c0[prev..hi])[to := c0[from]] == Overwrite(c0, to, c0[from..hi])
  {
    OverwriteAt(c0, at, c0[from + 1..hi], from);
    OverwriteCons(c0, at, c0[from + 1..hi], c0[from]);
    assert c0[from..hi] == [c0[from]] + c0[from + 1..hi];
  }

  /** Buffers laid end to end: buffer k covers the stretch [k * B, k * B + B) of the result. */
  function Concat<T>(cs: seq<seq<T>>): seq<T>
  {
    if |cs| == 0 then [] else cs[0] + Concat(cs[1..])
  }

  /** Every buffer has B cells. */
  ghost predicate Uniform<T>(cs: seq<seq<T>>, B: nat)
  {
    forall k :: 0 <= k < |cs| ==> |cs[k]| == B
  }

  lemma {:induction false} ConcatLength<T>(cs: seq<seq<T>>, B: nat)
    requires Uniform(cs, B)
    ensures |Concat(cs)| == |cs| * B
    decreases |cs|
  {
    if |cs| > 0 {
      ConcatLength(cs[1..], B);
      assert |cs| * B == B + (|cs| - 1) * B;
    }
  }

  /** Cell o of buffer i is at address i * B + o. */
  lemma {:induction false} ConcatIndex<T>(cs: seq<seq<T>>, B: nat, i: int, o: int)
    requires Uniform(cs, B) && 0 <= i < |cs| && 0 <= o < B
    ensures i * B + o < |Concat(cs)| && Concat(cs)[i * B + o] == cs[i][o]
    decreases |cs|
  {
    ConcatLength(cs, B);
    CellInRange(i, o, |cs|, B);
    if i > 0 {
      var rest := cs[1..];
      ConcatIndex(rest, B, i - 1, o);
      AddMul(i - 1, 1, B);
      var q := (i - 1) * B + o;
      assert i * B + o == B + q;
      assert Concat(cs) == cs[0] + Concat(rest);
      assert Concat(cs)[B + q] == Concat(rest)[q];
    }
  }

  /** Writing cell o of buffer i writes address i * B + o. */
  lemma {:induction false} ConcatUpdate<T>(cs: seq<seq<T>>, B: nat, i: int, o: int, v: T)
    requires Uniform(cs, B) && 0 <= i < |cs| && 0 <= o < B
    ensures i * B + o < |Concat(cs)| && Concat(cs[i := cs[i][o := v]]) == Concat(cs)[i * B + o := v]
    decreases |cs|
  {
    ConcatIndex(cs, B, i, o);
    if i == 0 {
      assert cs[i := cs[i][o := v]][1..] == cs[1..];
    } else {
      ConcatUpdate(cs[1..], B, i - 1, o, v);
      assert cs[i := cs[i][o := v]][1..] == cs[1..][i - 1 := cs[i][o := v]];
      assert i * B + o == B + ((i - 1) * B + o);
    }
  }

  lemma {:induction false} ConcatAppend<T>(a: seq<seq<T>>, b: seq<seq<T>>)
    ensures Concat(a + b) == Concat(a) + Concat(b)
    decreases |a|
  {
    if |a| > 0 {
      ConcatAppend(a[1..], b);
      assert (a + b)[1..] == a[1..] + b;
    } else {
      assert a + b == b;
    }
  }

  lemma {:induction false} PrefixSlice<T>(cs: seq<seq<T>>, B: nat, hi: int, i: int, j: int)
    requires Uniform(cs, B) && 0 <= hi <= |cs| && 0 <= i <= j <= hi * B
    ensures j <= |Concat(cs)| && j <= |Concat(cs[..hi])|
    ensures Concat(cs)[i..j] == Concat(cs[..hi])[i..j]
  {
    assert cs == cs[..hi] + cs[hi..];
    ConcatAppend(cs[..hi], cs[hi..]);
    ConcatLength(cs[..hi], B);
    ConcatLength(cs, B);
    MulMono(hi, |cs|, B);
  }

  /**
   * The cells at offsets [i, j) from the first address of slot lo are the cells at [i, j) of the
   * buffers from slot lo on, laid end to end.
   */
  lemma {:induction false} BufSlice<T>(cs: seq<seq<T>>, B: nat, lo: int, hi: int, i: int, j: int)
    requires Uniform(cs, B) && 0 <= lo <= hi <= |cs| && 0 <= i <= j <= (hi - lo) * B
    ensures 0 <= lo * B + i <= lo * B + j <= |Concat(cs)| && j <= |Concat(cs[lo..hi])|
    ensures Concat(cs)[lo * B + i..lo * B + j] == Concat(cs[lo..hi])[i..j]
    decreases lo
  {
    if lo == 0 {
      PrefixSlice(cs, B, hi, i, j);
      assert cs[0..hi] == cs[..hi];
    } else {
      var rest := cs[1..];
      BufSlice(rest, B, lo - 1, hi - 1, i, j);
      assert rest[lo - 1..hi - 1] == cs[lo..hi];
      AddMul(lo - 1, 1, B);
      var x := (lo - 1) * B;
      assert lo * B == B + x;
      assert |cs[0]| == B && Concat(cs) == cs[0] + Concat(rest);
      assert Concat(cs)[B + x + i..B + x + j] == Concat(rest)[x + i..x + j];
    }
  }

  /**
   * k buffers that sit at slot n1 of one map and at slot n2 of another hold the same cells: the
   * stretch at offsets [i, j) from the first of them reads the same in both address spaces.
   */
  lemma {:induction false} SlotsMoved<T>(c1: seq<seq<T>>, n1: int, c2: seq<seq<T>>, n2: int, k: int, B: nat, i: int, j: int)
    requires Uniform(c1, B) && Uniform(c2, B)
    requires 0 <= n1 && n1 + k <= |c1| && 0 <= n2 && n2 + k <= |c2| && 0 <= k
    requires c2[n2..n2 + k] == c1[n1..n1 + k]
    requires 0 <= i <= j <= k * B
    ensures 0 <= n1 * B + i <= n1 * B + j <= |Concat(c1)|
    ensures 0 <= n2 * B + i <= n2 * B + j <= |Concat(c2)|
    ensures Concat(c2)[n2 * B + i..n2 * B + j] == Concat(c1)[n1 * B + i..n1 * B + j]
  {
    BufSlice(c1, B, n1, n1 + k, i, j);
    BufSlice(c2, B, n2, n2 + k, i, j);
  }

  // ---------------------------------------------------------------------------------------------
  // What each deque operation does to the stretch of addresses holding the elements.

  /** Storing v just past the end appends it. */
  lemma {:induction false} SnocCell<T>(c: seq<T>, b: int, e: int, v: T)
    requires 0 <= b <= e < |c|
    ensures c[e := v][b..e + 1] == c[b..e] + [v]
  {
    assert forall p :: 0 <= p < e - b ==> c[e := v][b..e + 1][p] == c[b..e][p];
  }

  /** Storing v just before the beginning prepends it. */
  lemma {:induction false} ConsCell<T>(c: seq<T>, b: int, e: int, v: T)
    requires 0 < b <= e <= |c|
    ensures c[b - 1 := v][b - 1..e] == [v] + c[b..e]
  {
    assert forall p :: 0 <= p < e - b ==> c[b - 1 := v][b - 1..e][p + 1] == c[b..e][p];
  }

  /** Dropping the first n addresses of a stretch drops its first n elements. */
  lemma {:induction false} DropFirstCells<T>(c: seq<T>, b: int, e: int, n: int)
    requires 0 <= b && 0 <= n <= e - b && e <= |c|
    ensures c[b + n..e] == c[b..e][n..]
  {
  }

  /** Dropping the last n addresses of a stretch drops its last n elements. */
  lemma {:induction false} DropLastCells<T>(c: seq<T>, b: int, e: int, n: int)
    requires 0 <= b && 0 <= n <= e - b && e <= |c|
    ensures c[b..e - n] == c[b..e][..e - b - n]
  {
  }

  /** Writing vals over the stretch starting at b: the stretch [b, e) then starts with vals. */
  lemma {:induction false} OverwritePrefix<T>(c: seq<T>, b: int, e: int, vals: seq<T>, mid: int)
    requires 0 <= b && mid == b + |vals| && mid <= e <= |c|
    ensures Overwrite(c, b, vals)[b..e] == vals + c[mid..e]
  {
    var r := Overwrite(c, b, vals);
    forall p | 0 <= p < e - b
      ensures r[b..e][p] == (vals + c[mid..e])[p]
    {
      OverwriteAt(c, b, vals, b + p);
    }
  }

  /** Writing vals just before b (inserting at the front): [b - |vals|, e) holds vals + old. */
  lemma {:induction false} OverwriteBefore<T>(c: seq<T>, b: int, e: int, vals: seq<T>)
    requires 0 <= b - |vals| && b <= e <= |c|
    ensures Overwrite(c, b - |vals|, vals)[b - |vals|..e] == vals + c[b..e]
  {
    OverwritePrefix(c, b - |vals|, e, vals, b);
  }

  /** Writing vals at e (inserting at the back): [b, e + |vals|) holds old + vals. */
  lemma {:induction false} OverwriteAfter<T>(c: seq<T>, b: int, e: int, vals: seq<T>)
    requires 0 <= b <= e && e + |vals| <= |c|
    ensures Overwrite(c, e, vals)[b..e + |vals|] == c[b..e] + vals
  {
    var r := Overwrite(c, e, vals);
    forall p | 0 <= p < e + |vals| - b
      ensures r[b..e + |vals|][p] == (c[b..e] + vals)[p]
    {
      OverwriteAt(c, e, vals, b + p);
    }
  }

  /**
   * insert_aux towards the front.  After emplace_front(front()) the stretch [b, e) holds
   * [s[0]] + s; copying [b + 2, b + k + 1) down to b + 1 and storing v at b + k leaves
   * s with v inserted at index k.
   */
  lemma {:induction false} InsertAuxFront<T>(c1: seq<T>, b: int, e: int, s: seq<T>, k: int, v: T, f1: int, f2: int, at: int, pos: int)
    requires 0 <= b <= e <= |c1| && 0 < k < |s| && c1[b..e] == [s[0]] + s
    requires f1 == b + 1 && f2 == b + 2 && at == b + k && pos == at + 1
    ensures pos <= e
    ensures Overwrite(c1, f1, c1[f2..pos])[at := v][b..e] == s[..k] + [v] + s[k..]
  {
    var c2 := Overwrite(c1, f1, c1[f2..pos]);
    var t := s[..k] + [v] + s[k..];
    forall p | 0 <= p < e - b
      ensures c2[b + k := v][b..e][p] == t[p]
    {
      OverwriteAt(c1, f1, c1[f2..pos], b + p);
      assert c1[b + p] == c1[b..e][p];
      if 1 <= p < k {
        assert c1[b + p + 1] == c1[b..e][p + 1];
      }
    }
  }

  /**
   * insert_aux towards the back.  After emplace_back(back()) the stretch [b, e) holds
   * s + [last of s]; copy_backward of [b + k, e - 2) to end at e - 1 and storing v at b + k
   * leaves s with v inserted at index k.
   */
  lemma {:induction false} InsertAuxBack<T>(c1: seq<T>, b: int, e: int, s: seq<T>, k: int, v: T, at: int, e2: int, e1: int)
    requires 0 <= b <= e <= |c1| && 0 <= k < |s| && c1[b..e] == s + [s[|s| - 1]]
    requires at == b + k && e1 == e - 1 && e2 == e1 - 1
    ensures at <= e2
    ensures Overwrite(c1, e1 - (e2 - at), c1[at..e2])[at := v][b..e] == s[..k] + [v] + s[k..]
  {
    var c2 := Overwrite(c1, e1 - (e2 - at), c1[at..e2]);
    var t := s[..k] + [v] + s[k..];
    forall p | 0 <= p < e - b
      ensures c2[b + k := v][b..e][p] == t[p]
    {
      OverwriteAt(c1, e1 - (e2 - at), c1[at..e2], b + p);
      assert c1[b + p] == c1[b..e][p];
      if k < p < e - b - 1 {
        assert c1[b + p - 1] == c1[b..e][p - 1];
      }
    }
  }

  /**
   * Erasing [i, i + len) of s = [b, e) by moving the front part: copy_backward of [b, b + i) to
   * end at b + i + len, after which the elements start at b + len.
   */
  lemma {:induction false} EraseShiftFront<T>(c1: seq<T>, b: int, e: int, s: seq<T>, i: int, len: int, f: int, l: int)
    requires 0 <= b <= e <= |c1| && c1[b..e] == s && 0 <= i && 0 <= len && i + len <= |s|
    requires f == b + i && l == f + len
    ensures Overwrite(c1, l - (f - b), c1[b..f])[b..e][len..] == s[..i] + s[i + len..]
  {
    DropFirstCells(Overwrite(c1, l - (f - b), c1[b..f]), b, e, len);
    var c2 := Overwrite(c1, l - (f - b), c1[b..f]);
    var t := s[..i] + s[i + len..];
    forall p | 0 <= p < e - b - len
      ensures c2[b + len..e][p] == t[p]
    {
      OverwriteAt(c1, l - (f - b), c1[b..f], b + len + p);
      assert c1[b + len + p] == s[len + p];
      if p < i {
        assert c1[b + p] == s[p];
      }
    }
  }

  /**
   * Erasing [i, i + len) of s = [b, e) by moving the back part: copy of [b + i + len, e) down to
   * b + i, after which the elements end at e - len.
   */
  lemma {:induction false} EraseShiftBack<T>(c1: seq<T>, b: int, e: int, s: seq<T>, i: int, len: int, f: int, l: int)
    requires 0 <= b <= e <= |c1| && c1[b..e] == s && 0 <= i && 0 <= len && i + len <= |s|
    requires f == b + i && l == f + len
    ensures Overwrite(c1, f, c1[l..e])[b..e][..e - b - len] == s[..i] + s[i + len..]
  {
    DropLastCells(Overwrite(c1, f, c1[l..e]), b, e, len);
    var c2 := Overwrite(c1, f, c1[l..e]);
    var t := s[..i] + s[i + len..];
    forall p | 0 <= p < e - b - len
      ensures c2[b..e - len][p] == t[p]
    {
      OverwriteAt(c1, f, c1[l..e], b + p);
      assert c1[b + p] == s[p];
      if p >= i {
        assert c1[b + p + len] == s[p + len];
      }
    }
  }

  /** Two writes side by side, the second starting where the first ends, are one write. */
  lemma {:induction false} OverwriteThen<T>(c: seq<T>, at: int, x: seq<T>, y: seq<T>, mid: int)
    requires 0 <= at && mid == at + |x| && mid + |y| <= |c|
    ensures Overwrite(Overwrite(c, at, x), mid, y) == Overwrite(c, at, x + y)
  {
    var c1 := Overwrite(c, at, x);
    assert c1[..mid] == c[..at] + x;
    assert c1[mid + |y|..] == c[mid + |y|..];
  }

  /** Two writes side by side, the second ending where the first starts, are one write. */
  lemma {:induction false} OverwriteAhead<T>(c: seq<T>, at: int, x: seq<T>, y: seq<T>, start: int)
    requires 0 <= start && start == at - |y| && at + |x| <= |c|
    ensures Overwrite(Overwrite(c, at, x), start, y) == Overwrite(c, start, y + x)
  {
    var c1 := Overwrite(c, at, x);
    assert c1[..start] == c[..start];
    assert c1[at..] == x + c[at + |x|..];
  }

  /** Two adjacent stretches of a sequence make up the stretch they span. */
  lemma {:induction false} SliceSplit<T>(c: seq<T>, i: int, j: int, l: int)
    requires 0 <= i <= j <= l <= |c|
    ensures c[i..j] + c[j..l] == c[i..l]
  {
  }

  /** The head and the tail of a stretch are stretches of the whole. */
  lemma {:induction false} SliceOfSlice<T>(c: seq<T>, b: int, e: int, k: int)
    requires 0 <= b <= e <= |c| && 0 <= k <= e - b
    ensures c[b..e][..k] == c[b..b + k] && c[b..e][k..] == c[b + k..e]
  {
  }

  /** A write leaves a stretch it does not touch alone. */
  lemma {:induction false} OverwriteOutside<T>(c: seq<T>, at: int, x: seq<T>, i: int, j: int)
    requires 0 <= at && at + |x| <= |c| && 0 <= i <= j <= |c| && (j <= at || at + |x| <= i)
    ensures Overwrite(c, at, x)[i..j] == c[i..j]
  {
    var r := Overwrite(c, at, x);
    forall p | i <= p < j
      ensures r[p] == c[p]
    {
      OverwriteAt(c, at, x, p);
    }
  }

  /**
   * copy_insert towards the front with at least n elements before the position k: the first n
   * elements move n cells back into the new room (c1) and the next k - n follow them (c2), so
   * the first k elements as a whole have moved n cells back.
   */
  lemma {:induction false} FrontLongMoves<T>(c0: seq<T>, c1: seq<T>, c2: seq<T>, b: int, k: int, n: int,
                                             a1: int, p1: int, q1: int, a2: int, p2: int, q2: int)
    requires 0 <= n <= b && n <= k && b + k <= |c0|
    requires a1 == b - n && p1 == b && q1 == b + n && a2 == b && p2 == b + n && q2 == b + k
    requires c1 == Overwrite(c0, a1, c0[p1..q1])
    requires c2 == Overwrite(c1, a2, c1[p2..q2])
    ensures c2 == Overwrite(c0, a1, c0[p1..q2])
  {
    OverwriteOutside(c0, a1, c0[p1..q1], p2, q2);
    SliceSplit(c0, p1, q1, q2);
    OverwriteThen(c0, a1, c0[p1..q1], c0[p2..q2], a2);
  }

  /**
   * The first k elements of [b, e) moved n = |vals| cells back (c2), then vals written into
   * the n cells before the position (c3): [b - n, e) holds the elements with vals at index k.
   */
  lemma {:induction false} FrontLongStore<T>(c0: seq<T>, c2: seq<T>, c3: seq<T>, b: int, e: int, k: int, vals: seq<T>,
                                             a1: int, p: int, a3: int)
    requires |vals| <= b <= e <= |c0| && |vals| <= k <= e - b
    requires a1 == b - |vals| && p == b + k && a3 == p - |vals|
    requires c2 == Overwrite(c0, a1, c0[b..p])
    requires c3 == Overwrite(c2, a3, vals)
    ensures c3[b - |vals|..e] == c0[b..e][..k] + vals + c0[b..e][k..]
  {
    SliceOfSlice(c0, b, e, k);
    OverwriteThen(c0, a1, c0[b..b + k], vals, a3);
    OverwritePrefix(c0, a1, e, c0[b..b + k] + vals, b + k);
  }

  /**
   * copy_insert towards the front with fewer than n = |vals| elements before the position k:
   * those k move n cells back (c1), the first n - k values follow them (c2), and the last k
   * values go where the moved elements were (c3).
   */
  lemma {:induction false} CopyInsertFrontShort<T>(c0: seq<T>, c1: seq<T>, c2: seq<T>, c3: seq<T>, b: int, e: int, k: int, vals: seq<T>,
                                                   a1: int, p1: int, q1: int, a2: int)
    requires |vals| <= b <= e <= |c0| && 0 <= k < |vals| && k <= e - b
    requires a1 == b - |vals| && p1 == b && q1 == b + k && a2 == b - |vals| + k
    requires c1 == Overwrite(c0, a1, c0[p1..q1])
    requires c2 == Overwrite(c1, a2, vals[..|vals| - k])
    requires c3 == Overwrite(c2, b, vals[|vals| - k..])
    ensures c3[b - |vals|..e] == c0[b..e][..k] + vals + c0[b..e][k..]
  {
    var n := |vals|;
    SliceOfSlice(c0, b, e, k);
    OverwriteThen(c0, a1, c0[b..b + k], vals[..n - k], a2);
    OverwriteThen(c0, a1, c0[b..b + k] + vals[..n - k], vals[n - k..], b);
    assert c0[b..b + k] + vals[..n - k] + vals[n - k..] == c0[b..b + k] + vals;
    OverwritePrefix(c0, a1, e, c0[b..b + k] + vals, b + k);
  }

  /**
   * Opening a gap of n cells at p in front of the elements [p, e): the last n move to the n
   * cells after e (c1), then the rest move n cells back, back to front (c2).  Together the
   * elements [p, e) move to [p + n, e + n); the cells before p + n keep their old values.
   */
  lemma {:induction false} OpenGapBack<T>(c0: seq<T>, c1: seq<T>, c2: seq<T>, p: int, e: int, n: int,
                                          p1: int, a2: int, q2: int)
    requires 0 <= p && 0 <= n && p + n < e && e + n <= |c0|
    requires p1 == e - n && a2 == p + n && q2 == e - n
    requires c1 == Overwrite(c0, e, c0[p1..e])
    requires c2 == Overwrite(c1, a2, c1[p..q2])
    ensures c2 == Overwrite(c0, p + n, c0[p..e])
  {
    OverwriteOutside(c0, e, c0[p1..e], p, q2);
    OverwriteAhead(c0, e, c0[p1..e], c0[p..q2], a2);
    SliceSplit(c0, p, q2, e);
  }

  /**
   * copy_insert towards the back with more than n = |vals| elements from the position k on:
   * once those elements have moved n cells back (c2), vals fill the n cells from the
   * position (c3).
   */
  lemma {:induction false} CopyInsertBackLong<T>(c0: seq<T>, c2: seq<T>, c3: seq<T>, b: int, e: int, k: int, vals: seq<T>, p: int)
    requires 0 <= b <= e && e + |vals| <= |c0| && 0 <= k && k + |vals| < e - b && p == b + k
    requires c2 == Overwrite(c0, p + |vals|, c0[p..e])
    requires c3 == Overwrite(c2, p, vals)
    ensures c3[b..e + |vals|] == c0[b..e][..k] + vals + c0[b..e][k..]
  {
    SliceOfSlice(c0, b, e, k);
    OverwriteAhead(c0, p + |vals|, c0[p..e], vals, p);
    OverwriteAfter(c0, b, p, vals + c0[p..e]);
    assert c0[b..p] + (vals + c0[p..e]) == c0[b..p] + vals + c0[p..e];
  }

  /**
   * copy_insert towards the back with at most n = |vals| elements from the position k on: the
   * values past the first m = e - b - k go to the new room first (c1), the m elements follow
   * them (c2), and the first m values go where the moved elements were (c3).
   */
  lemma {:induction false} CopyInsertBackShort<T>(c0: seq<T>, c1: seq<T>, c2: seq<T>, c3: seq<T>, b: int, e: int, k: int, vals: seq<T>,
                                                  m: int, a2: int, p2: int)
    requires 0 <= b <= e && e + |vals| <= |c0| && 0 <= k <= e - b && e - b - k <= |vals|
    requires m == e - b - k && a2 == e + |vals| - m && p2 == b + k
    requires c1 == Overwrite(c0, e, vals[m..])
    requires c2 == Overwrite(c1, a2, c1[p2..e])
    requires c3 == Overwrite(c2, p2, vals[..m])
    ensures c3[b..e + |vals|] == c0[b..e][..k] + vals + c0[b..e][k..]
  {
    SliceOfSlice(c0, b, e, k);
    OverwriteOutside(c0, e, vals[m..], p2, e);
    OverwriteThen(c0, e, vals[m..], c0[p2..e], a2);
    OverwriteAhead(c0, e, vals[m..] + c0[p2..e], vals[..m], p2);
    assert vals[..m] + (vals[m..] + c0[p2..e]) == vals + c0[p2..e];
    OverwriteAfter(c0, b, p2, vals + c0[p2..e]);
    assert c0[b..p2] + (vals + c0[p2..e]) == c0[b..p2] + vals + c0[p2..e];
  }

  /** The addresses of slots [bn, en] depend only on the buffers of those slots. */
  lemma {:induction false} LiveFrame<T>(c1: seq<seq<T>>, c2: seq<seq<T>>, B: nat, bn: int, en: int, b: int, e: int)
    requires B > 0 && Uniform(c1, B) && Uniform(c2, B) && |c1| == |c2| && 0 <= bn <= en < |c1|
    requires bn * B <= b <= e <= en * B + B
    requires forall i :: bn <= i <= en ==> c2[i] == c1[i]
    ensures e <= |Concat(c1)| && |Concat(c1)| == |Concat(c2)|
    ensures Concat(c2)[b..e] == Concat(c1)[b..e]
  {
    ConcatLength(c1, B);
    ConcatLength(c2, B);
    MulMono(en + 1, |c1|, B);
    var k := en + 1 - bn;
    assert k * B == (en + 1) * B - bn * B;
    var s1, s2 := c1[bn..bn + k], c2[bn..bn + k];
    forall t | 0 <= t < k
      ensures s2[t] == s1[t]
    {
      assert c2[bn + t] == c1[bn + t];
    }
    assert s2 == s1;
    SlotsMoved(c1, bn, c2, bn, k, B, b - bn * B, e - bn * B);
  }

  /**
   * The buffers of slots [bn, en] of c moved to slots [at, at + en - bn] of a map of size slots;
   * every other slot holds pad.
   */
  function Recentre<T>(c: seq<seq<T>>, pad: seq<T>, bn: int, en: int, at: int, size: nat): (r: seq<seq<T>>)
    requires 0 <= bn <= en < |c| && 0 <= at && at + (en - bn) < size
    ensures |r| == size
    ensures forall i :: 0 <= i < size ==> r[i] == if at <= i <= at + (en - bn) then c[bn + i - at] else pad
  {
    seq(size, (i: int) requires 0 <= i < size => if at <= i <= at + (en - bn) then c[bn + i - at] else pad)
  }

  /** After Recentre, the addresses of the moved slots hold what they held before, shifted by (at - bn) * B. */
  lemma RecentreUniform<T>(c: seq<seq<T>>, B: nat, pad: seq<T>, bn: int, en: int, at: int, size: nat)
    requires Uniform(c, B) && |pad| == B
    requires 0 <= bn <= en < |c| && 0 <= at && at + (en - bn) < size
    ensures Uniform(Recentre(c, pad, bn, en, at, size), B)
  {
  }

  /** The cells [b, e) of c, at offsets [i, j) from slot bn, are found at the same offsets from slot at. */
  lemma {:induction false} RecentreMoves<T>(c: seq<seq<T>>, B: nat, pad: seq<T>, bn: int, en: int, at: int, size: nat, i: int, j: int, b: int, e: int)
    requires B > 0 && Uniform(c, B) && |pad| == B
    requires 0 <= bn <= en < |c| && 0 <= at && at + (en - bn) < size
    requires 0 <= i <= j <= (en - bn + 1) * B
    requires b == bn * B + i && e == bn * B + j
    ensures Uniform(Recentre(c, pad, bn, en, at, size), B)
    ensures 0 <= at * B + i <= at * B + j <= |Concat(Recentre(c, pad, bn, en, at, size))|
    ensures 0 <= b <= e <= |Concat(c)|
    ensures Concat(Recentre(c, pad, bn, en, at, size))[at * B + i..at * B + j] == Concat(c)[b..e]
  {
    var r := Recentre(c, pad, bn, en, at, size);
    var k := en - bn + 1;
    var s1, s2 := c[bn..bn + k], r[at..at + k];
    forall t | 0 <= t < k
      ensures s2[t] == s1[t]
    {
      assert r[at + t] == c[bn + t];
    }
    assert s2 == s1;
    SlotsMoved(c, bn, r, at, k, B, i, j);
  }
}
