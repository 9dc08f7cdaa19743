/**
 * The names under which carved images are saved (src/main.rs:108):
 * `format!("{}_image_{}.{}", prefix, i, prefix)`, where `i` is the image's
 * position in its format's list, printed in decimal the way Rust prints a
 * `usize`: most significant digit first, no sign, no leading zeros.
 */
module Naming {

  /** The character of a decimal digit. */
  function DigitChar(d: nat): (c: char)
    requires d < 10
    ensures '0' <= c <= '9' && c as int - '0' as int == d
  {
    (d + '0' as int) as char
  }

  /** `n` in decimal, as `format!("{}", n)` prints it. */
  function Decimal(n: nat): (s: string)
    decreases n
    ensures |s| >= 1
    ensures forall t :: 0 <= t < |s| ==> '0' <= s[t] <= '9'
    ensures |s| > 1 ==> s[0] != '0'
  {
    if n < 10 then [DigitChar(n)] else Decimal(n / 10) + [DigitChar(n % 10)]
  }

  /** The value of a string of decimal digits; the reading `Decimal` is checked against. */
  function DecimalValue(s: string): nat
    requires forall t :: 0 <= t < |s| ==> '0' <= s[t] <= '9'
  {
    if s == [] then 0
    else DecimalValue(s[..|s| - 1]) * 10 + (s[|s| - 1] as int - '0' as int)
  }

  /** Reading back a printed number gives the number. */
  lemma {:induction false} DecimalRoundTrip(n: nat)
    decreases n
    ensures DecimalValue(Decimal(n)) == n
  {
    var s := Decimal(n);
    if n >= 10 {
      DecimalRoundTrip(n / 10);
      assert s[..|s| - 1] == Decimal(n / 10);
    } else {
      assert s[..|s| - 1] == [];
    }
  }

  /** Different numbers print differently. */
  lemma DecimalInjective(m: nat, n: nat)
    ensures Decimal(m) == Decimal(n) <==> m == n
  {
    DecimalRoundTrip(m);
    DecimalRoundTrip(n);
  }

  /**
   * The file name of image `k` of the format whose name and extension is
   * `prefix`. It splits into the prefix, `_image_`, the index in decimal, a
   * dot and the prefix again, so the prefix and the index can be read back.
   */
  function ImageName(prefix: string, k: nat): (name: string)
    ensures |name| == 2 * |prefix| + 8 + |Decimal(k)|
    ensures name[..|prefix|] == prefix
    ensures name[|prefix|..|prefix| + 7] == "_image_"
    ensures name[|prefix| + 7..|name| - |prefix| - 1] == Decimal(k)
    ensures name[|name| - |prefix| - 1..] == "." + prefix
  {
    var name := prefix + "_image_" + Decimal(k) + ("." + prefix);
    FourParts(prefix, "_image_", Decimal(k), "." + prefix);
    name
  }

  /** Each of four concatenated parts is the slice of the whole at its own position. */
  lemma FourParts<T>(a: seq<T>, b: seq<T>, c: seq<T>, d: seq<T>)
    ensures |a + b + c + d| == |a| + |b| + |c| + |d|
    ensures (a + b + c + d)[..|a|] == a
    ensures (a + b + c + d)[|a|..|a| + |b|] == b
    ensures (a + b + c + d)[|a| + |b|..|a| + |b| + |c|] == c
    ensures (a + b + c + d)[|a| + |b| + |c|..] == d
  {
    var s := a + b + c + d;
    assert s == ((a + b) + c) + d;
    assert s[..|a| + |b| + |c|] == (a + b) + c;
    assert s[..|a| + |b|] == a + b;
  }

  /** The images of one format get pairwise different names. */
  lemma ImageNameInjective(prefix: string, j: nat, k: nat)
    ensures ImageName(prefix, j) == ImageName(prefix, k) <==> j == k
  {
    var a, b := ImageName(prefix, j), ImageName(prefix, k);
    DecimalInjective(j, k);
  }

  /**
   * Images of two formats whose prefixes have the same length but differ never
   * share a name, so "png", "jpg" and "gif" files never overwrite each other.
   */
  lemma ImageNamesOfFormatsDiffer(p: string, q: string, j: nat, k: nat)
    requires |p| == |q| && p != q
    ensures ImageName(p, j) != ImageName(q, k)
  {
    var a, b := ImageName(p, j), ImageName(q, k);
    assert a[..|p|] == p && b[..|q|] == q;
  }
}
