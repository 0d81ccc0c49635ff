/** Zero padding of a square image on the right and bottom to a canonical size. */
module Padding {
  import opened Results

  type Matrix = seq<seq<real>>

  /** `m` has `n` rows of `n` entries each. */
  predicate IsSquare<T>(m: seq<seq<T>>, n: int) {
    |m| == n && forall i :: 0 <= i < |m| ==> |m[i]| == n
  }

  function Zeros(n: nat): (z: seq<real>)
    ensures |z| == n
    ensures forall i :: 0 <= i < n ==> z[i] == 0.0
  {
    if n == 0 then [] else [0.0] + Zeros(n - 1)
  }

  /** Pads the `imageSize` x `imageSize` image `x` with zeros on the right and bottom to
      `targetSize` x `targetSize`. A target below the image size asks for a negative pad
      width, which is an error. */
  function Pad(x: Matrix, imageSize: nat, targetSize: int): (r: Result<Matrix>)
    requires IsSquare(x, imageSize)
    ensures r.Success? <==> imageSize <= targetSize
    ensures r.Success? ==> IsSquare(r.value, targetSize)
    ensures r.Success? ==> forall i, j :: 0 <= i < imageSize && 0 <= j < imageSize ==> r.value[i][j] == x[i][j]
    ensures r.Success? ==> forall i, j :: 0 <= i < targetSize && 0 <= j < targetSize && (imageSize <= i || imageSize <= j) ==>
      r.value[i][j] == 0.0
  {
    if targetSize < imageSize then
      Failure(NegativePadWidth)
    else
      var w := targetSize - imageSize;
      var widened := seq(imageSize, i requires 0 <= i < imageSize => x[i] + Zeros(w));
      var padded := widened + seq(w, _ => Zeros(targetSize));
      assert forall i :: 0 <= i < imageSize ==> padded[i] == x[i] + Zeros(w);
      assert forall i :: imageSize <= i < targetSize ==> padded[i] == Zeros(targetSize);
      Success(padded)
  }

  /** The top-left `n` x `n` block of `m`. */
  function Crop(m: Matrix, n: nat): (c: Matrix)
    requires n <= |m|
    requires forall i :: 0 <= i < n ==> n <= |m[i]|
    ensures IsSquare(c, n)
  {
    seq(n, i requires 0 <= i < n => m[i][..n])
  }

  /** Cropping a padded image gives back the image. */
  lemma PadCropRoundTrip(x: Matrix, imageSize: nat, targetSize: int)
    requires IsSquare(x, imageSize)
    requires imageSize <= targetSize
    ensures Crop(Pad(x, imageSize, targetSize).value, imageSize) == x
  {
    var p := Pad(x, imageSize, targetSize).value;
    var c := Crop(p, imageSize);
    forall i | 0 <= i < imageSize ensures c[i] == x[i] {
      assert c[i] == p[i][..imageSize];
    }
  }

  /** An image already at the target size is returned as it is. */
  lemma PadFullSizeIsIdentity(x: Matrix, n: nat)
    requires IsSquare(x, n)
    ensures Pad(x, n, n) == Success(x)
  {
    var p := Pad(x, n, n).value;
    forall i | 0 <= i < n ensures p[i] == x[i] {
      assert |p[i]| == |x[i]| == n;
      assert forall j :: 0 <= j < n ==> p[i][j] == x[i][j];
    }
    assert p == x;
  }
}
