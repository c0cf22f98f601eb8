/**
 * The 256 x 256 lookup tables GfxInit builds for saturating colour
 * arithmetic, and the compound operators that read them.
 */
module ArithTables {
  import opened Bytes
  import opened Color

  /**
   * The addition table: for each row i, the first loop stores n = i, i+1, ...
   * up to 255 in columns 0, 1, ..., and the second loop fills the remaining
   * columns with 255.
   */
  method BuildAddTable() returns (t: array2<Byte>)
    ensures t.Length0 == 256 && t.Length1 == 256
    ensures forall i, j :: 0 <= i < 256 && 0 <= j < 256 ==> t[i, j] == SatAdd(i, j)
  {
    t := new Byte[256, 256];
    var i := 0;
    while i <= 255
      invariant 0 <= i <= 256
      invariant forall a, b :: 0 <= a < i && 0 <= b < 256 ==> t[a, b] == SatAdd(a, b)
    {
      var j := 0;
      var n := i;
      while n <= 255
        invariant i <= n <= 256 && j == n - i
        invariant forall a, b :: 0 <= a < i && 0 <= b < 256 ==> t[a, b] == SatAdd(a, b)
        invariant forall b :: 0 <= b < j ==> t[i, b] == SatAdd(i, b)
      {
        t[i, j] := n;
        j, n := j + 1, n + 1;
      }
      while j <= 255
        invariant 256 - i <= j <= 256
        invariant forall a, b :: 0 <= a < i && 0 <= b < 256 ==> t[a, b] == SatAdd(a, b)
        invariant forall b :: 0 <= b < j ==> t[i, b] == SatAdd(i, b)
      {
        t[i, j] := ChannelMax;
        j := j + 1;
      }
      i := i + 1;
    }
  }

  /**
   * The subtraction table: for each row i, the first loop stores n = i, i-1,
   * ... down to 0 in columns 0, 1, ..., and the second loop fills the
   * remaining columns with 0.
   */
  method BuildSubTable() returns (t: array2<Byte>)
    ensures t.Length0 == 256 && t.Length1 == 256
    ensures forall i, j :: 0 <= i < 256 && 0 <= j < 256 ==> t[i, j] == SatSub(i, j)
  {
    t := new Byte[256, 256];
    var i := 0;
    while i <= 255
      invariant 0 <= i <= 256
      invariant forall a, b :: 0 <= a < i && 0 <= b < 256 ==> t[a, b] == SatSub(a, b)
    {
      var j := 0;
      var n := i;
      while n >= 0
        invariant -1 <= n <= i && j == i - n
        invariant forall a, b :: 0 <= a < i && 0 <= b < 256 ==> t[a, b] == SatSub(a, b)
        invariant forall b :: 0 <= b < j ==> t[i, b] == SatSub(i, b)
      {
        t[i, j] := n;
        j, n := j + 1, n - 1;
      }
      while j <= 255
        invariant i + 1 <= j <= 256
        invariant forall a, b :: 0 <= a < i && 0 <= b < 256 ==> t[a, b] == SatSub(a, b)
        invariant forall b :: 0 <= b < j ==> t[i, b] == SatSub(i, b)
      {
        t[i, j] := 0;
        j := j + 1;
      }
      i := i + 1;
    }
  }

  /** The process-wide tables tableAdd and tableSub, built once. */
  class Tables {
    const add: array2<Byte>
    const sub: array2<Byte>

    ghost predicate Valid()
      reads add, sub
    {
      && add.Length0 == 256 && add.Length1 == 256
      && sub.Length0 == 256 && sub.Length1 == 256
      && (forall i, j :: 0 <= i < 256 && 0 <= j < 256 ==> add[i, j] == SatAdd(i, j))
      && (forall i, j :: 0 <= i < 256 && 0 <= j < 256 ==> sub[i, j] == SatSub(i, j))
    }

    /** The table-building part of GfxInit. */
    constructor Init()
      ensures Valid()
    {
      var a := BuildAddTable();
      var s := BuildSubTable();
      add, sub := a, s;
    }

    /** operator+= (and operator+ on a copy): every channel through tableAdd. */
    method AddAssign(left: Color32, right: Color32) returns (r: Color32)
      requires Valid()
      ensures r == Add(left, right)
    {
      r := left;
      r := r.(red := add[r.red, right.red]);
      r := r.(green := add[r.green, right.green]);
      r := r.(blue := add[r.blue, right.blue]);
      r := r.(alpha := add[r.alpha, right.alpha]);
    }

    /** operator-= (and operator- on a copy): every channel through tableSub. */
    method SubAssign(left: Color32, right: Color32) returns (r: Color32)
      requires Valid()
      ensures r == Sub(left, right)
    {
      r := left;
      r := r.(red := sub[r.red, right.red]);
      r := r.(green := sub[r.green, right.green]);
      r := r.(blue := sub[r.blue, right.blue]);
      r := r.(alpha := sub[r.alpha, right.alpha]);
    }
  }
}
