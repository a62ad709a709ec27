/**
  The Levenshtein distance of `str.cpp`: a reference definition, its meaning as the least number of
  single edits, the metric laws, and the two-row computation in one flat buffer.
 */
module EditDistance {
  import opened Machine
  import opened Utf8

  // ---------------------------------------------------------------------------------------------
  // The reference recurrence
  // ---------------------------------------------------------------------------------------------

  /** `std::min` of three. */
  function Min3(x: int, y: int, z: int): int {
    var yz := if y < z then y else z;
    if x < yz then x else yz
  }

  /** The distance of the first `i` elements of `a` from the first `j` elements of `b`. */
  function DistAt(a: seq<int>, b: seq<int>, i: nat, j: nat): nat
    requires i <= |a| && j <= |b|
  {
    if i == 0 then j
    else if j == 0 then i
    else Min3(DistAt(a, b, i - 1, j) + 1,
              DistAt(a, b, i, j - 1) + 1,
              DistAt(a, b, i - 1, j - 1) + (if a[i - 1] != b[j - 1] then 1 else 0))
  }

  function Dist(a: seq<int>, b: seq<int>): nat {
    DistAt(a, b, |a|, |b|)
  }

  // ---------------------------------------------------------------------------------------------
  // What the distance means: the least number of edits
  // ---------------------------------------------------------------------------------------------

  /** One insertion, deletion or substitution, anywhere in the sequence. */
  datatype Edit = Insert(at: nat, x: int) | Delete(at: nat) | Substitute(at: nat, x: int)
  {
    predicate Fits(s: seq<int>) {
      if Insert? then at <= |s| else at < |s|
    }

    function Apply(s: seq<int>): seq<int>
      requires Fits(s)
    {
      match this
      case Insert(_, x) => s[..at] + [x] + s[at..]
      case Delete(_) => s[..at] + s[at + 1..]
      case Substitute(_, x) => s[..at] + [x] + s[at + 1..]
    }
  }

  /** The edits, applied one after the other, turn `a` into `b`. */
  predicate Transforms(edits: seq<Edit>, a: seq<int>, b: seq<int>) {
    if edits == [] then a == b
    else edits[0].Fits(a) && Transforms(edits[1..], edits[0].Apply(a), b)
  }

  lemma {:induction false} DistAtAgrees(a: seq<int>, b: seq<int>, c: seq<int>, d: seq<int>, i: nat, j: nat)
    requires i <= |a| && i <= |c| && a[..i] == c[..i]
    requires j <= |b| && j <= |d| && b[..j] == d[..j]
    ensures DistAt(a, b, i, j) == DistAt(c, d, i, j)
    decreases i + j
  {
    if i > 0 && j > 0 {
      assert a[i - 1] == a[..i][i - 1] && b[j - 1] == b[..j][j - 1];
      assert a[..i - 1] == a[..i][..i - 1] && b[..j - 1] == b[..j][..j - 1];
      assert c[i - 1] == c[..i][i - 1] && d[j - 1] == d[..j][j - 1];
      assert c[..i - 1] == c[..i][..i - 1] && d[..j - 1] == d[..j][..j - 1];
      DistAtAgrees(a, b, c, d, i - 1, j);
      DistAtAgrees(a, b, c, d, i, j - 1);
      DistAtAgrees(a, b, c, d, i - 1, j - 1);
    }
  }

  /** The recurrence on sequences, taking the last elements off. */
  lemma DistSnoc(a: seq<int>, x: int, b: seq<int>, y: int)
    ensures Dist(a + [x], b + [y])
         == Min3(Dist(a, b + [y]) + 1, Dist(a + [x], b) + 1, Dist(a, b) + (if x != y then 1 else 0))
  {
    var c, d := a + [x], b + [y];
    DistAtAgrees(c, d, a, d, |a|, |d|);
    DistAtAgrees(c, d, c, b, |c|, |b|);
    DistAtAgrees(c, d, a, b, |a|, |b|);
  }

  lemma DistEmpty(a: seq<int>)
    ensures Dist([], a) == |a| && Dist(a, []) == |a|
  {
  }

  /** The last element and the rest. */
  lemma Snoc(a: seq<int>)
    requires a != []
    ensures a == a[..|a| - 1] + [a[|a| - 1]]
  {
  }

  /** One more element changes the distance by at most one, either way. */
  lemma {:induction false} DistOneMore(a: seq<int>, b: seq<int>, y: int)
    ensures Dist(a, b + [y]) <= Dist(a, b) + 1
    ensures Dist(a, b) <= Dist(a, b + [y]) + 1
    decreases |a| + |b|
  {
    if a == [] {
      DistEmpty(b);
      DistEmpty(b + [y]);
    } else {
      var front, x := a[..|a| - 1], a[|a| - 1];
      Snoc(a);
      DistSnoc(front, x, b, y);
      DistOneMore(front, b, y);
      DistLongerLeft(front, x, b);
    }
  }

  lemma {:induction false} DistLongerLeft(a: seq<int>, x: int, b: seq<int>)
    ensures Dist(a + [x], b) <= Dist(a, b) + 1
    decreases |a| + |b| + 1
  {
    if b == [] {
      DistEmpty(a);
      DistEmpty(a + [x]);
    } else {
      Snoc(b);
      DistSnoc(a, x, b[..|b| - 1], b[|b| - 1]);
    }
  }

  /** Exchanging the last element changes the distance by at most one. */
  lemma {:induction false} DistOtherLast(a: seq<int>, b: seq<int>, y: int, z: int)
    ensures Dist(a, b + [y]) <= Dist(a, b + [z]) + 1
  {
    if a == [] {
      DistEmpty(b + [y]);
      DistEmpty(b + [z]);
    } else {
      var front, x := a[..|a| - 1], a[|a| - 1];
      Snoc(a);
      DistSnoc(front, x, b, y);
      DistSnoc(front, x, b, z);
      DistOtherLast(front, b, y, z);
    }
  }

  /** If two sequences are within one of each other from any `a`, then so they are with the same element added. */
  lemma {:induction false} DistCommonLast(a: seq<int>, b: seq<int>, c: seq<int>, y: int)
    requires forall s: seq<int> :: Dist(s, b) <= Dist(s, c) + 1
    ensures Dist(a, b + [y]) <= Dist(a, c + [y]) + 1
  {
    assert Dist([], b) <= Dist([], c) + 1;
    DistEmpty(b);
    DistEmpty(c);
    if a == [] {
      DistEmpty(b + [y]);
      DistEmpty(c + [y]);
    } else {
      var front, x := a[..|a| - 1], a[|a| - 1];
      Snoc(a);
      DistSnoc(front, x, b, y);
      DistSnoc(front, x, c, y);
      DistCommonLast(front, b, c, y);
      assert Dist(a, b) <= Dist(a, c) + 1;
      assert Dist(front, b) <= Dist(front, c) + 1;
    }
  }

  lemma {:induction false} DistCommonSuffix(a: seq<int>, b: seq<int>, c: seq<int>, suffix: seq<int>)
    requires forall s: seq<int> :: Dist(s, b) <= Dist(s, c) + 1
    ensures Dist(a, b + suffix) <= Dist(a, c + suffix) + 1
    decreases |suffix|
  {
    if suffix == [] {
      assert b + suffix == b && c + suffix == c;
    } else {
      var y := suffix[0];
      forall s: seq<int>
        ensures Dist(s, b + [y]) <= Dist(s, c + [y]) + 1
      {
        DistCommonLast(s, b, c, y);
      }
      DistCommonSuffix(a, b + [y], c + [y], suffix[1..]);
      assert b + suffix == b + [y] + suffix[1..];
      assert c + suffix == c + [y] + suffix[1..];
    }
  }

  /** A single edit of the second sequence changes the distance by at most one. */
  lemma DistAfterEdit(a: seq<int>, b: seq<int>, edit: Edit)
    requires edit.Fits(b)
    ensures Dist(a, edit.Apply(b)) <= Dist(a, b) + 1
  {
    var at := edit.at;
    var front := b[..at];
    match edit
    case Insert(_, x) =>
      forall s: seq<int> ensures Dist(s, front + [x]) <= Dist(s, front) + 1 {
        DistOneMore(s, front, x);
      }
      DistCommonSuffix(a, front + [x], front, b[at..]);
      assert b == front + b[at..];
    case Delete(_) =>
      forall s: seq<int> ensures Dist(s, front) <= Dist(s, front + [b[at]]) + 1 {
        DistOneMore(s, front, b[at]);
      }
      DistCommonSuffix(a, front, front + [b[at]], b[at + 1..]);
      assert b == front + [b[at]] + b[at + 1..];
    case Substitute(_, x) =>
      forall s: seq<int> ensures Dist(s, front + [x]) <= Dist(s, front + [b[at]]) + 1 {
        DistOtherLast(s, front, x, b[at]);
      }
      DistCommonSuffix(a, front + [x], front + [b[at]], b[at + 1..]);
      assert b == front + [b[at]] + b[at + 1..];
  }

  lemma {:induction false} DistAfterEdits(a: seq<int>, b: seq<int>, c: seq<int>, edits: seq<Edit>)
    requires Transforms(edits, b, c)
    ensures Dist(a, c) <= Dist(a, b) + |edits|
    decreases |edits|
  {
    if edits != [] {
      DistAfterEdit(a, b, edits[0]);
      DistAfterEdits(a, edits[0].Apply(b), c, edits[1..]);
    }
  }

  lemma {:induction false} DistToItself(a: seq<int>)
    ensures Dist(a, a) == 0
  {
    if a != [] {
      Snoc(a);
      var front := a[..|a| - 1];
      DistToItself(front);
      DistSnoc(front, a[|a| - 1], front, a[|a| - 1]);
    }
  }

  lemma {:induction false} TransformsThenOne(edits: seq<Edit>, a: seq<int>, b: seq<int>, last: Edit)
    requires Transforms(edits, a, b) && last.Fits(b)
    ensures Transforms(edits + [last], a, last.Apply(b))
    decreases |edits|
  {
    if edits == [] {
      assert [last][1..] == [];
      assert edits + [last] == [last];
    } else {
      TransformsThenOne(edits[1..], edits[0].Apply(a), b, last);
      assert (edits + [last])[1..] == edits[1..] + [last];
    }
  }

  lemma EditWithSuffix(edit: Edit, a: seq<int>, suffix: seq<int>)
    requires edit.Fits(a)
    ensures edit.Fits(a + suffix) && edit.Apply(a + suffix) == edit.Apply(a) + suffix
  {
    var rest := if edit.Insert? then edit.at else edit.at + 1;
    var first := if edit.Delete? then a[..edit.at] else a[..edit.at] + [edit.x];
    SlicesWithSuffix(a, suffix, edit.at);
    SlicesWithSuffix(a, suffix, rest);
    Regrouped(first, a[rest..], suffix);
  }

  lemma SlicesWithSuffix(a: seq<int>, suffix: seq<int>, k: nat)
    requires k <= |a|
    ensures (a + suffix)[..k] == a[..k] && (a + suffix)[k..] == a[k..] + suffix
  {
  }

  lemma Regrouped(x: seq<int>, y: seq<int>, z: seq<int>)
    ensures x + (y + z) == x + y + z
  {
  }

  /** Edits of the front of a sequence leave what comes after it alone. */
  lemma {:induction false} TransformsWithSuffix(edits: seq<Edit>, a: seq<int>, b: seq<int>, suffix: seq<int>)
    requires Transforms(edits, a, b)
    ensures Transforms(edits, a + suffix, b + suffix)
    decreases |edits|
  {
    if edits != [] {
      var edit := edits[0];
      EditWithSuffix(edit, a, suffix);
      TransformsWithSuffix(edits[1..], edit.Apply(a), b, suffix);
    }
  }

  lemma {:induction false} DeleteAll(a: seq<int>) returns (edits: seq<Edit>)
    ensures Transforms(edits, a, []) && |edits| == |a|
  {
    if a == [] {
      edits := [];
    } else {
      var rest := DeleteAll(a[1..]);
      edits := [Delete(0)] + rest;
      assert edits[1..] == rest;
      assert Delete(0).Apply(a) == a[1..];
    }
  }

  lemma {:induction false} InsertAll(b: seq<int>) returns (edits: seq<Edit>)
    ensures Transforms(edits, [], b) && |edits| == |b|
  {
    if b == [] {
      edits := [];
    } else {
      Snoc(b);
      var front := b[..|b| - 1];
      edits := InsertAll(front);
      var last := Insert(|front|, b[|b| - 1]);
      TransformsThenOne(edits, [], front, last);
      assert last.Apply(front) == b;
      edits := edits + [last];
    }
  }

  /** The distance is attained: that many edits do turn `a` into `b`. */
  lemma {:induction false} DistIsAttained(a: seq<int>, b: seq<int>) returns (edits: seq<Edit>)
    ensures Transforms(edits, a, b) && |edits| == Dist(a, b)
    decreases |a| + |b|
  {
    if a == [] {
      DistEmpty(b);
      edits := InsertAll(b);
    } else if b == [] {
      DistEmpty(a);
      edits := DeleteAll(a);
    } else {
      Snoc(a);
      Snoc(b);
      var p, x, q, y := a[..|a| - 1], a[|a| - 1], b[..|b| - 1], b[|b| - 1];
      DistSnoc(p, x, q, y);
      if Dist(a, b) == Dist(p, b) + 1 {
        edits := DistIsAttained(p, b);
        TransformsWithSuffix(edits, p, b, [x]);
        var last := Delete(|b|);
        TransformsThenOne(edits, a, b + [x], last);
        assert last.Apply(b + [x]) == b;
        edits := edits + [last];
      } else if Dist(a, b) == Dist(a, q) + 1 {
        edits := DistIsAttained(a, q);
        var last := Insert(|q|, y);
        TransformsThenOne(edits, a, q, last);
        assert last.Apply(q) == b;
        edits := edits + [last];
      } else {
        edits := DistIsAttained(p, q);
        TransformsWithSuffix(edits, p, q, [x]);
        if x != y {
          var last := Substitute(|q|, y);
          TransformsThenOne(edits, a, q + [x], last);
          assert last.Apply(q + [x]) == b;
          edits := edits + [last];
        }
      }
    }
  }

  /** The distance is the least number of single edits that turn one sequence into the other. */
  lemma DistIsLeastEdits(a: seq<int>, b: seq<int>)
    ensures exists edits :: Transforms(edits, a, b) && |edits| == Dist(a, b)
    ensures forall edits :: Transforms(edits, a, b) ==> Dist(a, b) <= |edits|
  {
    var least := DistIsAttained(a, b);
    forall edits | Transforms(edits, a, b)
      ensures Dist(a, b) <= |edits|
    {
      DistToItself(a);
      DistAfterEdits(a, a, b, edits);
    }
  }

  // ---------------------------------------------------------------------------------------------
  // The metric laws
  // ---------------------------------------------------------------------------------------------

  lemma {:induction false} DistAtSymmetric(a: seq<int>, b: seq<int>, i: nat, j: nat)
    requires i <= |a| && j <= |b|
    ensures DistAt(a, b, i, j) == DistAt(b, a, j, i)
    decreases i + j
  {
    hide DistAt;
    DistAtUnfold(a, b, i, j);
    DistAtUnfold(b, a, j, i);
    if i > 0 && j > 0 {
      DistAtSymmetric(a, b, i - 1, j);
      DistAtSymmetric(a, b, i, j - 1);
      DistAtSymmetric(a, b, i - 1, j - 1);
    }
  }

  lemma DistAtUnfold(a: seq<int>, b: seq<int>, i: nat, j: nat)
    requires i <= |a| && j <= |b|
    ensures DistAt(a, b, i, j) ==
              if i == 0 then j
              else if j == 0 then i
              else Min3(DistAt(a, b, i - 1, j) + 1, DistAt(a, b, i, j - 1) + 1,
                        DistAt(a, b, i - 1, j - 1) + (if a[i - 1] != b[j - 1] then 1 else 0))
  {
  }

  /** Zero exactly for equal sequences, symmetric, and subject to the triangle inequality. */
  lemma DistIsMetric(a: seq<int>, b: seq<int>, c: seq<int>)
    ensures Dist(a, b) == 0 <==> a == b
    ensures Dist(a, b) == Dist(b, a)
    ensures Dist(a, c) <= Dist(a, b) + Dist(b, c)
  {
    DistToItself(a);
    var ab := DistIsAttained(a, b);
    DistAtSymmetric(a, b, |a|, |b|);
    var bc := DistIsAttained(b, c);
    DistAfterEdits(a, b, c, bc);
  }

  // ---------------------------------------------------------------------------------------------
  // The computation
  // ---------------------------------------------------------------------------------------------

  /** Where row `j` of the table is kept: the two rows in use alternate. `B(i, j)` is `Row(..., j) + i`. */
  function Row(buf: nat, aLen: nat, j: nat): nat {
    if j % 2 == 0 then buf else buf + (aLen + 1)
  }

  /** The memory holds the first `n` entries of row `j` of the table at `start`. */
  ghost predicate HoldsRow(mem: seq<int>, start: nat, n: nat, s: seq<int>, t: seq<int>, j: nat) {
    && n <= |s| + 1 && j <= |t| && start + n <= |mem|
    && forall k :: start <= k < start + n ==> mem[k] == DistAt(s, t, k - start, j)
  }

  lemma RowStep(mem: seq<int>, last: nat, row: nat, i: nat, s: seq<int>, t: seq<int>, j: nat)
    requires 0 < j <= |t| && 0 < i <= |s|
    requires HoldsRow(mem, last, |s| + 1, s, t, j - 1) && HoldsRow(mem, row, i, s, t, j)
    ensures var subst := if s[i - 1] != t[j - 1] then 1 else 0;
            Min3(mem[row + i - 1] + 1, mem[last + i] + 1, mem[last + i - 1] + subst) == DistAt(s, t, i, j)
  {
    assert mem[row + (i - 1)] == DistAt(s, t, i - 1, j);
    assert mem[last + i] == DistAt(s, t, i, j - 1);
    assert mem[last + (i - 1)] == DistAt(s, t, i - 1, j - 1);
  }

  lemma SliceOfPrefix<T>(m: seq<T>, n: seq<T>, end: nat, i: nat, j: nat)
    requires i <= j <= end <= |m| && end <= |n| && m[..end] == n[..end]
    ensures m[i..j] == n[i..j]
  {
    assert forall k :: i <= k < j ==> m[k] == m[..end][k] == n[..end][k] == n[k];
  }

  /**
    `str_utf32_dist_buffer`. All pointers are offsets into one memory, in which both sequences lie
    before the working buffer, as they do in `Utf8DistBuffer`.
   */
  method Utf32DistBuffer(mem: array<int>, a0: nat, aLen0: nat, b0: nat, bLen0: nat, buf: nat, bufLen: nat)
    returns (dist: int)
    requires a0 + aLen0 <= buf && b0 + bLen0 <= buf && buf + bufLen <= mem.Length
    requires bufLen >= (aLen0 + 1) + (bLen0 + 1)
    modifies mem
    ensures dist == Dist(old(mem[a0..a0 + aLen0]), old(mem[b0..b0 + bLen0]))
    ensures mem[..buf] == old(mem[..buf])
  {
    if aLen0 > bLen0 {
      DistAtSymmetric(mem[a0..a0 + aLen0], mem[b0..b0 + bLen0], aLen0, bLen0);
      dist := FillTable(mem, b0, bLen0, a0, aLen0, buf);
    } else {
      dist := FillTable(mem, a0, aLen0, b0, bLen0, buf);
    }
  }

  /** The part of `str_utf32_dist_buffer` after the shorter sequence was made the first one. */
  method FillTable(mem: array<int>, a: nat, aLen: nat, b: nat, bLen: nat, buf: nat) returns (dist: int)
    requires a + aLen <= buf && b + bLen <= buf && buf + 2 * (aLen + 1) <= mem.Length
    modifies mem
    ensures dist == Dist(old(mem[a..a + aLen]), old(mem[b..b + bLen]))
    ensures mem[..buf] == old(mem[..buf])
  {
    hide HoldsRow, DistAt;
    ghost var s, t, before := mem[a..a + aLen], mem[b..b + bLen], mem[..];
    FillFirstRow(mem, aLen, buf, s, t);
    var j := 1;
    while j <= bLen
      invariant 1 <= j <= bLen + 1
      invariant mem[..buf] == before[..buf]
      invariant HoldsRow(mem[..], Row(buf, aLen, j - 1), aLen + 1, s, t, j - 1)
    {
      SliceOfPrefix(mem[..], before, buf, a, a + aLen);
      SliceOfPrefix(mem[..], before, buf, b, b + bLen);
      FillRow(mem, a, aLen, b, bLen, Row(buf, aLen, j - 1), Row(buf, aLen, j), j, buf, s, t);
      j := j + 1;
    }
    dist := mem[Row(buf, aLen, bLen) + aLen];
    RowEnd(mem[..], Row(buf, aLen, bLen), s, t);
  }

  lemma RowEnd(mem: seq<int>, start: nat, s: seq<int>, t: seq<int>)
    requires HoldsRow(mem, start, |s| + 1, s, t, |t|)
    ensures mem[start + |s|] == Dist(s, t)
  {
  }

  method FillFirstRow(mem: array<int>, aLen: nat, buf: nat, ghost s: seq<int>, ghost t: seq<int>)
    requires buf + (aLen + 1) <= mem.Length && |s| == aLen
    modifies mem
    ensures mem[..buf] == old(mem[..buf])
    ensures HoldsRow(mem[..], buf, aLen + 1, s, t, 0)
  {
    var i := 0;
    while i <= aLen
      invariant 0 <= i <= aLen + 1
      invariant mem[..buf] == old(mem[..buf])
      invariant HoldsRow(mem[..], buf, i, s, t, 0)
    {
      mem[buf + i] := i;
      i := i + 1;
    }
  }

  /** One pass of the outer loop: row `j` of the table from row `j - 1`. */
  method FillRow(mem: array<int>, a: nat, aLen: nat, b: nat, bLen: nat, last: nat, row: nat, j: nat,
                 ghost buf: nat, ghost s: seq<int>, ghost t: seq<int>)
    requires a + aLen <= buf && b + bLen <= buf
    requires buf <= last && last + (aLen + 1) <= mem.Length && buf <= row && row + (aLen + 1) <= mem.Length
    requires last + (aLen + 1) <= row || row + (aLen + 1) <= last
    requires s == mem[a..a + aLen] && t == mem[b..b + bLen]
    requires 1 <= j <= bLen
    requires HoldsRow(mem[..], last, aLen + 1, s, t, j - 1)
    modifies mem
    ensures mem[..buf] == old(mem[..buf])
    ensures HoldsRow(mem[..], row, aLen + 1, s, t, j)
  {
    hide DistAt, HoldsRow, Min3;
    ghost var before := mem[..];
    mem[row] := j;
    FirstEntry(s, t, j);
    assert mem[..] == before[row := j];
    RowGrows(before, j, last, row, 0, s, t, j);
    var i := 1;
    while i <= aLen
      invariant 1 <= i <= aLen + 1
      invariant forall k :: 0 <= k < buf ==> mem[k] == before[k]
      invariant HoldsRow(mem[..], last, aLen + 1, s, t, j - 1)
      invariant HoldsRow(mem[..], row, i, s, t, j)
    {
      assert mem[a + (i - 1)] == before[a + (i - 1)] == s[i - 1];
      assert mem[b + (j - 1)] == before[b + (j - 1)] == t[j - 1];
      ghost var now := mem[..];
      RowStep(now, last, row, i, s, t, j);
      var subst := if mem[a + (i - 1)] != mem[b + (j - 1)] then 1 else 0;
      mem[row + i] := Min3(mem[row + i - 1] + 1, mem[last + i] + 1, mem[last + i - 1] + subst);
      assert mem[..] == now[row + i := mem[row + i]];
      RowGrows(now, mem[row + i], last, row, i, s, t, j);
      i := i + 1;
    }
  }

  lemma RowGrows(mem: seq<int>, entry: int, last: nat, row: nat, i: nat, s: seq<int>, t: seq<int>, j: nat)
    requires 0 < j <= |t| && i <= |s| && row + i < |mem| && entry == DistAt(s, t, i, j)
    requires last + (|s| + 1) <= row || row + (|s| + 1) <= last
    requires HoldsRow(mem, last, |s| + 1, s, t, j - 1) && (i > 0 ==> HoldsRow(mem, row, i, s, t, j))
    ensures HoldsRow(mem[row + i := entry], last, |s| + 1, s, t, j - 1) && HoldsRow(mem[row + i := entry], row, i + 1, s, t, j)
  {
    hide DistAt;
  }

  lemma FirstEntry(s: seq<int>, t: seq<int>, j: nat)
    requires j <= |t|
    ensures DistAt(s, t, 0, j) == j
  {
  }

  // ---------------------------------------------------------------------------------------------
  // Distance of UTF-8 strings
  // ---------------------------------------------------------------------------------------------

  /** What repeated decoding yields up to the terminating NUL; -1 for each error. */
  function CodePointsOf(s: cstring, at: nat): (codePoints: seq<int>)
    requires at <= |s|
    ensures |codePoints| <= |s| - at
    decreases |s| - at
  {
    var (codePoint, next) := Decoded(s, at);
    if codePoint == 0 then [] else [codePoint] + CodePointsOf(s, next)
  }

  /** `str_to_utf32_unchecked`. */
  method ToUtf32Unchecked(str: cstring, mem: array<int>, out0: nat) returns (out: nat, len: nat)
    requires out0 + |str| < mem.Length
    modifies mem
    ensures len == |CodePointsOf(str, 0)| && out == out0 + len
    ensures mem[out0..out] == CodePointsOf(str, 0)
    ensures mem[..out0] == old(mem[..out0])
  {
    hide Decoded;
    out, len := out0, 0;
    var at := 0;
    var codePoint, next := Decode(str, at);
    mem[out] := codePoint;
    while mem[out] != 0
      invariant at <= |str| && out == out0 + len && len <= at
      invariant (mem[out], next) == Decoded(str, at)
      invariant mem[out0..out] + CodePointsOf(str, at) == CodePointsOf(str, 0)
      invariant mem[..out0] == old(mem[..out0])
      decreases |str| - at
    {
      assert mem[out0..out + 1] + CodePointsOf(str, next) == mem[out0..out] + CodePointsOf(str, at);
      out := out + 1;
      len := len + 1;
      at := next;
      ghost var before := mem[..];
      codePoint, next := Decode(str, at);
      mem[out] := codePoint;
      assert mem[..out] == before[..out];
      SliceOfPrefix(mem[..], before, out, out0, out);
      SliceOfPrefix(mem[..], before, out, 0, out0);
    }
  }

  /** `str_utf8_dist_buffer`, with the buffer size its callers must provide. */
  method Utf8DistBuffer(aUtf8: cstring, bUtf8: cstring, buf: array<int>, bufLen: nat) returns (dist: int)
    requires bufLen <= buf.Length
    requires bufLen >= 2 * (|aUtf8| + 1 + |bUtf8| + 1)
    modifies buf
    ensures dist == Dist(CodePointsOf(aUtf8, 0), CodePointsOf(bUtf8, 0))
  {
    var first, second := aUtf8, bUtf8;
    if |aUtf8| > |bUtf8| {
      first, second := bUtf8, aUtf8;
    }
    DistIsMetric(CodePointsOf(aUtf8, 0), CodePointsOf(bUtf8, 0), []);
    var out := 0;
    var a := out;
    var aLen, bLen;
    out, aLen := ToUtf32Unchecked(first, buf, out);
    ghost var firstCodePoints := buf[..out];
    var b := out;
    out, bLen := ToUtf32Unchecked(second, buf, out);
    assert buf[a..a + aLen] == firstCodePoints;
    dist := Utf32DistBuffer(buf, a, aLen, b, bLen, out, bufLen - bLen - aLen);
  }

  /** `str_utf8_dist`, which allocates exactly that buffer. */
  method Utf8Dist(a: cstring, b: cstring) returns (dist: int)
    ensures dist == Dist(CodePointsOf(a, 0), CodePointsOf(b, 0))
  {
    var bufLen := 2 * (|a| + 1 + |b| + 1);
    var buf := new int[bufLen](_ => 0);
    dist := Utf8DistBuffer(a, b, buf, bufLen);
  }

  function EncodedAll(codePoints: seq<int>): seq<byte> {
    if codePoints == [] then [] else Encoded(codePoints[0]) + EncodedAll(codePoints[1..])
  }

  lemma ReadsOneEncoded(s: cstring, at: nat)
    requires at < |s| && WellFormed(s[at..])
    ensures var (codePoint, next) := Decoded(s, at);
            && codePoint > 0 && next <= |s|
            && Encoded(codePoint) == s[at..next] && WellFormed(s[next..])
  {
    hide IsUtf8Char, WellFormed, Decoded, Encoded;
    var (codePoint, next) := Decoded(s, at);
    DecodedStep(s, at);
    DecoderMeetsGrammar(s, at);
    assert Terminated(s)[at..next] == s[at..next];
    ScalarOfEncodes(s[at..next]);
  }

  lemma {:induction false} EncodedAllInverts(s: cstring, at: nat)
    requires at <= |s| && WellFormed(s[at..])
    ensures EncodedAll(CodePointsOf(s, at)) == s[at..]
    decreases |s| - at
  {
    hide WellFormed, Decoded, Encoded;
    var (codePoint, next) := Decoded(s, at);
    if at < |s| {
      ReadsOneEncoded(s, at);
      EncodedAllInverts(s, next);
      assert CodePointsOf(s, at)[1..] == CodePointsOf(s, next);
      assert s[at..next] + s[next..] == s[at..];
    }
  }

  /** On well-formed strings the distance is zero exactly when the strings are equal. */
  lemma Utf8DistZeroIffEqual(a: cstring, b: cstring)
    requires WellFormed(a) && WellFormed(b)
    ensures Dist(CodePointsOf(a, 0), CodePointsOf(b, 0)) == 0 <==> a == b
  {
    DistIsMetric(CodePointsOf(a, 0), CodePointsOf(b, 0), []);
    assert a[0..] == a && b[0..] == b;
    EncodedAllInverts(a, 0);
    EncodedAllInverts(b, 0);
  }
}
