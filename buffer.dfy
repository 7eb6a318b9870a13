/** The flat output buffer of CompareContour: every sub-network's patch is
    written at its own offset, then an optional background filter snaps
    values above a fraction of the inlet speed back to the inlet speed. */
module Buffer {
  import opened Arith

  /** The trained ensemble as seen by the assembler: sub-network `ii` maps a
      condition vector to its output patch. */
  type Network = (seq<real>, int) -> seq<real>

  /** Every sub-network below `rows` produces a patch of `outPiece` values. */
  ghost predicate PatchesHaveSize(net: Network, rows: nat, outPiece: nat)
  {
    forall v: seq<real>, ii: int :: 0 <= ii < rows ==> |net(v, ii)| == outPiece
  }

  /** The outputs of sub-networks 0 .. rows-1 on one condition vector, in index order. */
  function Patches(net: Network, inpt: seq<real>, rows: nat): seq<seq<real>>
  {
    seq(rows, ii => net(inpt, ii))
  }

  /** Concatenation of a list of rows (numpy's flattening). */
  function Concat(rows: seq<seq<real>>): seq<real>
  {
    if rows == [] then [] else rows[0] + Concat(rows[1..])
  }

  function Zeros(n: nat): (z: seq<real>)
    ensures |z| == n && forall i :: 0 <= i < n ==> z[i] == 0.0
  {
    seq(n, _ => 0.0)
  }

  /** Appending one row to the list appends it to the concatenation. */
  lemma {:induction false} ConcatSnoc(rows: seq<seq<real>>, row: seq<real>)
    ensures Concat(rows + [row]) == Concat(rows) + row
  {
    if rows == [] {
      assert [] + [row] == [row];
      assert Concat([row]) == row + Concat([]);
    } else {
      assert (rows + [row])[1..] == rows[1..] + [row];
      ConcatSnoc(rows[1..], row);
    }
  }

  /** Rows of equal width `n` concatenate to |rows| * n values. */
  lemma {:induction false} ConcatLength(rows: seq<seq<real>>, n: nat)
    requires forall ii :: 0 <= ii < |rows| ==> |rows[ii]| == n
    ensures |Concat(rows)| == |rows| * n
  {
    if rows != [] {
      ConcatLength(rows[1..], n);
      assert |rows| * n == n + (|rows| - 1) * n;
    }
  }

  /** Rows of equal width `n`: value `t` of row `ii` sits at position ii * n + t
      of the concatenation. */
  lemma {:induction false} ConcatAt(rows: seq<seq<real>>, n: nat, ii: nat, t: nat)
    requires forall k :: 0 <= k < |rows| ==> |rows[k]| == n
    requires ii < |rows| && t < n
    ensures FlatIndex(ii, t, n) < |Concat(rows)|
    ensures Concat(rows)[FlatIndex(ii, t, n)] == rows[ii][t]
  {
    ConcatLength(rows, n);
    FlatIndexBound(ii, t, |rows|, n);
    if ii > 0 {
      ConcatAt(rows[1..], n, ii - 1, t);
      assert FlatIndex(ii, t, n) == n + FlatIndex(ii - 1, t, n);
    }
  }

  /** Position k of the filled buffer: value k % outPiece of the patch of
      sub-network k / outPiece. */
  function PatchValue(net: Network, inpt: seq<real>, rows: nat, outPiece: nat, k: int): real
    requires PatchesHaveSize(net, rows, outPiece) && 0 <= k < rows * outPiece
  {
    PositiveFactor(rows, outPiece);
    QuotientBound(k, outPiece, rows);
    net(inpt, k / outPiece)[k % outPiece]
  }

  /** Patches numpy can write into a buffer of `size` values: either they all
      fit, or every patch is a single value, so that the slice of a patch past
      the end of the buffer is empty and the value is dropped. Any other
      overflow is a broadcasting error. */
  predicate FillFits(rows: nat, outPiece: nat, size: nat)
  {
    rows * outPiece <= size || outPiece == 1
  }

  /** The buffer after the fill: the patches in index order, then zeros up to
      `size`, or only the first `size` values when the patches run past it. */
  function Filled(net: Network, inpt: seq<real>, rows: nat, outPiece: nat, size: nat): (buf: seq<real>)
    requires PatchesHaveSize(net, rows, outPiece)
    ensures |buf| == size
  {
    var all := Concat(Patches(net, inpt, rows));
    if |all| <= size then all + Zeros(size - |all|) else all[..size]
  }

  /** Position k of the filled buffer holds value k % outPiece of sub-network
      k / outPiece's patch when k is below rows * outPiece, and zero after that. */
  lemma FilledAt(net: Network, inpt: seq<real>, rows: nat, outPiece: nat, size: nat, k: int)
    requires PatchesHaveSize(net, rows, outPiece) && 0 <= k < size
    ensures Filled(net, inpt, rows, outPiece, size)[k]
      == if k < rows * outPiece then PatchValue(net, inpt, rows, outPiece, k) else 0.0
  {
    var patches := Patches(net, inpt, rows);
    ConcatLength(patches, outPiece);
    if k < rows * outPiece {
      PositiveFactor(rows, outPiece);
      QuotientBound(k, outPiece, rows);
      ConcatAt(patches, outPiece, k / outPiece, k % outPiece);
      assert FlatIndex(k / outPiece, k % outPiece, outPiece) == k;
    }
  }

  /** `buf` with `patch` written from position `offset`, clipped to the end of
      `buf` (numpy's slice assignment buf[offset:offset+|patch|] = patch). */
  function Overlay(buf: seq<real>, patch: seq<real>, offset: nat): (r: seq<real>)
    ensures |r| == |buf|
    ensures forall p :: 0 <= p < |buf| && !(offset <= p < offset + |patch|) ==> r[p] == buf[p]
    ensures forall t :: 0 <= t < |patch| && offset + t < |buf| ==> r[offset + t] == patch[t]
  {
    seq(|buf|, p requires 0 <= p < |buf| => if offset <= p < offset + |patch| then patch[p - offset] else buf[p])
  }

  /** One more sub-network: the filled buffer changes only in the slice of
      patch ii (clipped to the buffer), which now holds that patch. */
  lemma FilledStep(net: Network, inpt: seq<real>, ii: nat, rows: nat, outPiece: nat, size: nat)
    requires PatchesHaveSize(net, rows, outPiece) && ii < rows
    ensures Filled(net, inpt, ii + 1, outPiece, size)
      == Overlay(Filled(net, inpt, ii, outPiece, size), net(inpt, ii), ii * outPiece)
  {
    var patch := net(inpt, ii);
    var offset := ii * outPiece;
    var done := Concat(Patches(net, inpt, ii));
    ConcatLength(Patches(net, inpt, ii), outPiece);
    assert Patches(net, inpt, ii + 1) == Patches(net, inpt, ii) + [patch];
    ConcatSnoc(Patches(net, inpt, ii), patch);
    var grown := done + patch;
    assert Concat(Patches(net, inpt, ii + 1)) == grown;
    var before, after := Filled(net, inpt, ii, outPiece, size), Filled(net, inpt, ii + 1, outPiece, size);
    var want := Overlay(before, patch, offset);
    forall p | 0 <= p < size
      ensures after[p] == want[p]
    {
      if p < offset {
        assert after[p] == grown[p] == done[p] == before[p];
      } else if p < offset + outPiece {
        assert after[p] == grown[p] == patch[p - offset];
      } else {
        assert after[p] == 0.0 == before[p];
      }
    }
  }

  /** Writes `patch` into `neural` from position `offset`, clipped to the end
      of the array. */
  method WritePatch(neural: array<real>, patch: seq<real>, offset: nat)
    modifies neural
    ensures neural[..] == Overlay(old(neural[..]), patch, offset)
  {
    forall t | 0 <= t < |patch| && offset + t < neural.Length {
      neural[offset + t] := patch[t];
    }
    forall p | 0 <= p < neural.Length
      ensures neural[p] == Overlay(old(neural[..]), patch, offset)[p]
    {
      if offset <= p < offset + |patch| {
        assert neural[offset + (p - offset)] == patch[p - offset];
      }
    }
  }

  /** Buffer fill (the loop over sub-networks): a buffer of `size` zeros
      receives patch `ii` in the slice from offset ii * outPiece, clipped to
      the end of the buffer as numpy clips slices, for ii in 0 .. rows-1. */
  method FillBuffer(net: Network, inpt: seq<real>, rows: nat, outPiece: nat, size: nat)
    returns (neural: array<real>)
    requires PatchesHaveSize(net, rows, outPiece)
    requires FillFits(rows, outPiece, size)
    ensures fresh(neural)
    ensures neural[..] == Filled(net, inpt, rows, outPiece, size)
  {
    neural := new real[size](_ => 0.0);
    var ii := 0;
    assert Patches(net, inpt, 0) == [];
    while ii < rows
      invariant 0 <= ii <= rows
      invariant neural[..] == Filled(net, inpt, ii, outPiece, size)
    {
      FilledStep(net, inpt, ii, rows, outPiece, size);
      WritePatch(neural, net(inpt, ii), ii * outPiece);
      ii := ii + 1;
    }
  }

  /** The background filter: when fltr < 1, every value above ws * fltr becomes ws;
      otherwise the buffer is left as it is. */
  function Filtered(buf: seq<real>, ws: real, fltr: real): (r: seq<real>)
    ensures |r| == |buf|
  {
    if fltr < 1.0 then
      seq(|buf|, i requires 0 <= i < |buf| => if buf[i] > ws * fltr then ws else buf[i])
    else
      buf
  }

  /** The filter as the in-place masked assignment on the buffer. */
  method ApplyFilter(neural: array<real>, ws: real, fltr: real)
    modifies neural
    ensures neural[..] == Filtered(old(neural[..]), ws, fltr)
    ensures fltr < 1.0 ==> forall i :: 0 <= i < neural.Length ==>
      neural[i] == (if old(neural[i]) > ws * fltr then ws else old(neural[i]))
    ensures fltr >= 1.0 ==> neural[..] == old(neural[..])
  {
    if fltr < 1.0 {
      forall i | 0 <= i < neural.Length && neural[i] > ws * fltr {
        neural[i] := ws;
      }
    }
  }

  /** After filtering, no value other than ws itself exceeds the threshold. */
  lemma FilterBound(buf: seq<real>, ws: real, fltr: real)
    requires fltr < 1.0
    ensures forall i :: 0 <= i < |buf| ==>
      Filtered(buf, ws, fltr)[i] == ws || Filtered(buf, ws, fltr)[i] <= ws * fltr
  {
  }

  /** Values at or below the threshold pass the filter unchanged; a buffer with
      nothing above the threshold is left as it is. */
  lemma FilterKeepsBackground(buf: seq<real>, ws: real, fltr: real)
    ensures forall i :: 0 <= i < |buf| && buf[i] <= ws * fltr ==> Filtered(buf, ws, fltr)[i] == buf[i]
    ensures (forall i :: 0 <= i < |buf| ==> buf[i] <= ws * fltr) ==> Filtered(buf, ws, fltr) == buf
  {
  }

  /** Filtering twice with the same ratio is filtering once. */
  lemma FilterIdempotent(buf: seq<real>, ws: real, fltr: real)
    ensures Filtered(Filtered(buf, ws, fltr), ws, fltr) == Filtered(buf, ws, fltr)
  {
  }
}
