/** 32-bit words and their bytes, most significant first. */
module Words {

  const WORD: nat := 0x1_0000_0000

  type Byte = n: nat | n < 0x100

  /** byte(v >> 24), byte(v >> 16), byte(v >> 8), byte(v). */
  function SplitBytes(v: nat): (b: seq<Byte>)
    ensures |b| == 4
  {
    [(v / 0x100_0000) % 256, (v / 0x1_0000) % 256, (v / 0x100) % 256, v % 256]
  }

  /** b[0]<<24 | b[1]<<16 | b[2]<<8 | b[3]; the bits of the terms do not meet. */
  function JoinBytes(b: seq<Byte>): nat
    requires |b| == 4
  {
    b[0] as nat * 0x100_0000 + b[1] as nat * 0x1_0000 + b[2] as nat * 0x100 + b[3] as nat
  }

  lemma SplitThenJoin(v: nat)
    requires v < WORD
    ensures JoinBytes(SplitBytes(v)) == v
  {
    var h, l := v / 0x1_0000, v % 0x1_0000;
    assert v / 0x100_0000 == h / 256 && v / 0x100 == h * 256 + l / 256;
    assert (h * 256 + l / 256) % 256 == l / 256;
    assert h % 256 + 256 * (h / 256) == h;
  }

  lemma HighestByteFirst(v: nat)
    requires v < WORD
    ensures
      var b := SplitBytes(v);
      b[0] as nat * 0x100_0000 + b[1] as nat * 0x1_0000 + b[2] as nat * 0x100 + b[3] as nat == v
  {
    SplitThenJoin(v);
    hide SplitBytes;
  }

  /** The highest byte comes first: words compare as their bytes do, from the left. */
  lemma HighestFirst(v: nat, w: nat)
    requires v < WORD && w < WORD
    ensures
      var a, b := SplitBytes(v), SplitBytes(w);
      v < w <==> exists i :: 0 <= i < 4 && a[..i] == b[..i] && a[i] < b[i]
  {
    var a, b := SplitBytes(v), SplitBytes(w);
    SplitThenJoin(v);
    SplitThenJoin(w);
    hide SplitBytes;
    if a[0] != b[0] {
      assert a[..0] == b[..0];
    } else if a[1] != b[1] {
      assert a[..1] == b[..1];
    } else if a[2] != b[2] {
      assert a[..2] == b[..2];
    } else {
      assert a[..3] == b[..3];
    }
    if i :| 0 <= i < 4 && a[..i] == b[..i] && a[i] < b[i] {
      assert forall j :: 0 <= j < i ==> a[j] == a[..i][j] && b[j] == b[..i][j];
    }
  }

  lemma JoinThenSplit(b: seq<Byte>)
    requires |b| == 4
    ensures JoinBytes(b) < WORD && SplitBytes(JoinBytes(b)) == b
  {
    var v := JoinBytes(b);
    var b0: nat, b1: nat, b2: nat := b[0], b[1], b[2];
    assert v / 0x100 == b0 * 0x1_0000 + b1 * 0x100 + b2;
    assert v / 0x1_0000 == b0 * 0x100 + b1;
    assert v / 0x100_0000 == b0;
  }
}
