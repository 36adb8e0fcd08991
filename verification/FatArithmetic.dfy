/** Why 1024 * r * c and 512 * r + 2 * c never agree modulo 2^32, for the numbers that a FAT16 volume
    can have: agreement would make c a multiple 256 * k, and leaves finitely many cases. */
module FatArithmetic {
  import opened Memory

  lemma NoAgreement(r: nat, cluster: nat, q: nat)
    requires r < 0x1_0000 && 0 < cluster < 0x1_0000
    ensures 1024 * (r * cluster) != ADDRESS_SPACE * q + 512 * r + 2 * cluster
  {
    if 1024 * (r * cluster) == ADDRESS_SPACE * q + 512 * r + 2 * cluster {
      var k := 2 * (r * cluster) - 0x80_0000 * q - r;
      assert cluster == 256 * k && 1 <= k <= 255;
      assert r * cluster == 256 * (r * k) by {
        ProductOfMultiple(r, k);
      }
      NoCofactor(r, k, q);
    }
  }

  lemma ProductOfMultiple(r: nat, k: nat)
    ensures r * (256 * k) == 256 * (r * k)
  {
  }

  lemma NoCofactor(r: nat, k: nat, q: nat)
    requires r < 0x1_0000 && 1 <= k <= 255
    ensures 512 * (r * k) != 0x80_0000 * q + r + k
  {
    if 512 * (r * k) == 0x80_0000 * q + r + k {
      var u := r * k - 0x4000 * q;
      assert r == 512 * u - k && 1 <= u <= 128;
      Expand(u, k, k);
      var m := u * k - 32 * q;
      assert k * k + u == 512 * m;
      Expand(m, k * k, k);
      assert m + k * k * k == 32 * (16 * (m * k) - q);
      NoCoincidence(k, u, m);
    }
  }

  lemma Expand(a: int, b: int, c: int)
    ensures (512 * a - b) * c == 512 * (a * c) - b * c
  {
  }

  /** `k` is one of the 16 numbers from `n` on. */
  predicate Near(k: nat, n: nat) {
    || k == n || k == n + 1 || k == n + 2 || k == n + 3 || k == n + 4 || k == n + 5 || k == n + 6 || k == n + 7
    || k == n + 8 || k == n + 9 || k == n + 10 || k == n + 11 || k == n + 12 || k == n + 13 || k == n + 14 || k == n + 15
  }

  lemma NoCoincidence(k: nat, u: nat, m: nat)
    requires k <= 255 && 1 <= u <= 128 && k * k + u == 512 * m
    ensures (m + k * k * k) % 32 != 0
  {
    var rest := EndsOfRange(k);
    SquareInRange(k, k * k, rest, u, m);
    if k < 96 {
      NoneLow(k, u, m);
    } else if k < 144 {
      NoneMiddle(k, u, m);
    } else if k < 176 {
      NoneUpper(k, u, m);
    } else if k < 208 {
      NoneHigh(k, u, m);
    } else {
      NoneHighest(k, u, m);
    }
  }

  lemma NoneLow(k: nat, u: nat, m: nat)
    requires 16 <= k < 96 && 1 <= u <= 128 && k * k + u == 512 * m
    ensures (m + k * k * k) % 32 != 0
  {
    if 16 <= k < 32 { assert Near(k, 16); }
    if 32 <= k < 48 { assert Near(k, 32); }
    if 48 <= k < 64 { assert Near(k, 48); }
    if 64 <= k < 80 { assert Near(k, 64); }
    if 80 <= k < 96 { assert Near(k, 80); }
  }

  lemma NoneMiddle(k: nat, u: nat, m: nat)
    requires 96 <= k < 144 && 1 <= u <= 128 && k * k + u == 512 * m
    ensures (m + k * k * k) % 32 != 0
  {
    if 96 <= k < 112 { assert Near(k, 96); }
    if 112 <= k < 128 { assert Near(k, 112); }
    if 128 <= k < 144 { assert Near(k, 128); }
  }

  lemma NoneUpper(k: nat, u: nat, m: nat)
    requires 144 <= k < 176 && 1 <= u <= 128 && k * k + u == 512 * m
    ensures (m + k * k * k) % 32 != 0
  {
    if 144 <= k < 160 { assert Near(k, 144); }
    if 160 <= k < 176 { assert Near(k, 160); }
  }

  lemma NoneHigh(k: nat, u: nat, m: nat)
    requires 176 <= k < 208 && 1 <= u <= 128 && k * k + u == 512 * m
    ensures (m + k * k * k) % 32 != 0
  {
    if 176 <= k < 192 { assert Near(k, 176); }
    if 192 <= k < 208 { assert Near(k, 192); }
  }

  lemma NoneHighest(k: nat, u: nat, m: nat)
    requires 208 <= k < 240 && 1 <= u <= 128 && k * k + u == 512 * m
    ensures (m + k * k * k) % 32 != 0
  {
    if 208 <= k < 224 { assert Near(k, 208); }
    if 224 <= k < 240 { assert Near(k, 224); }
  }

  lemma SquareInRange(k: nat, square: nat, rest: nat, u: nat, m: nat)
    requires k < 16 ==> square <= 225
    requires k >= 240 ==> rest <= 256 && square == 512 * (k - 128) + rest
    requires square + u == 512 * m && 1 <= u <= 128
    ensures 16 <= k < 240
  {
  }

  /** For the first and the last sixteen numbers the remainder of the square is too small. */
  lemma EndsOfRange(k: nat) returns (rest: nat)
    requires k <= 255
    ensures k < 16 ==> k * k <= 225
    ensures k >= 240 ==> rest <= 256 && k * k == 512 * (k - 128) + rest
  {
    rest := (256 - k) * (256 - k);
    if k < 16 {
      Squares(k, 15);
    } else if k >= 240 {
      Squares(256 - k, 16);
    }
  }

  lemma Squares(a: nat, b: nat)
    requires a <= b
    ensures a * a <= b * b
  {
  }
}
