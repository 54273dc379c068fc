/** The constant tables of the number theoretic transform (cpp/src/quickjs/libbf.c,
    ntt_mods, ntt_proot, ntt_mods_cr, ntt_int_bits) for both limb widths, and what
    the transform relies on them for. */
module NttTables {
  import opened Powers
  import opened Limbs
  import opened NttWord
  import opened NttSums
  import opened NttConvolution
  import opened NttFft
  import opened NttCrt

  const NB_MODS: nat := 5

  /** NTT_PROOT_2EXP: the roots have order 2 to this power. */
  function RootOrder(): (k: nat) { if LIMB_BITS == 64 then 51 else 20 }

  /** ntt_mods. */
  function Mods(): (s: seq<nat>)
    ensures |s| == 5
  {
    if LIMB_BITS == 64
    then [0x28d8000000000001, 0x2a88000000000001, 0x2ed8000000000001, 0x3508000000000001, 0x3aa8000000000001]
    else [0x32b00001, 0x33700001, 0x36d00001, 0x37300001, 0x3e500001]
  }

  /** ntt_proot[0]. */
  function Roots(): (s: seq<nat>)
    ensures |s| == 5
  {
    if LIMB_BITS == 64
    then [0x1b8ea61034a2bea7, 0x21a9762de58206fb, 0x2ca782f0756a8ea, 0x278384537a3e50a1, 0x106e13fee74ce0ab]
    else [0x32525f31, 0x5eb3b37, 0x246eda9f, 0x35f25901, 0x22f5768]
  }

  /** ntt_proot[1]. */
  function InverseRoots(): (s: seq<nat>)
    ensures |s| == 5
  {
    if LIMB_BITS == 64
    then [0x233513af133e13b8, 0x1d13140d1c6f75f1, 0x12cde57f97e3eeda, 0xd6149e23cbe654f, 0x36cd204f522a1379]
    else [0x51eba1a, 0x107be10e, 0x1cd574e0, 0x53806e6, 0x2cd6bf98]
  }

  /** ntt_mods_cr. */
  function ModsCr(): (s: seq<nat>)
    ensures |s| == 10
  {
    if LIMB_BITS == 64
    then [0x8a9ed097b425eea, 0x18a44aaaaaaaaab3, 0x2493f57f57f57f5d, 0x126b8d0649a7f8d4, 0x9d80ed7303b5ccc,
      0x25b8bcf3cf3cf3d5, 0x2ce6ce63398ce638, 0xe31fad40a57eb59, 0x2a3529fd4a7f52f, 0x3a5493e93e93e94a]
    else [0x449559a, 0x1eba6ca9, 0x2ec18e46, 0x860160b, 0xd321307, 0xbf51120, 0xf662938,
         0x932ab3e, 0x2f40eef8, 0x2e760905]
  }

  /** ntt_int_bits. */
  function IntBits(): (s: seq<nat>)
    ensures |s| == 5
  {
    if LIMB_BITS == 64
    then [307, 246, 185, 123, 61]
    else [148, 119, 89, 59, 29]
  }

  // ---- powers by repeated squaring ----

  /** c squared n times modulo m. */
  function Squares(c: nat, m: nat, n: nat): (r: nat)
    requires m > 0
    decreases n
  {
    if n == 0 then c else Squares(c * c % m, m, n - 1)
  }

  lemma {:induction false} SquaresAdd(c: nat, m: nat, a: nat, b: nat)
    requires m > 0
    ensures Squares(c, m, a + b) == Squares(Squares(c, m, a), m, b)
    decreases a
  {
    if a > 0 {
      SquaresAdd(c * c % m, m, a - 1, b);
    }
  }

  /** Squaring n times is raising to the power 2^n. */
  lemma {:induction false} SquaresAre(c: nat, m: nat, n: nat)
    requires m > 0
    ensures Cg(Squares(c, m, n), Pw(c, Pow(2, n)), m)
    decreases n
  {
    hide Cg, Pw, Pow;
    if n == 0 {
      PowStep(2, 0);
      PwFirst(c);
      CgRefl(c, m);
    } else {
      var d := c * c % m;
      SquaresAre(d, m, n - 1);
      PowStep(2, n - 1);
      PwFirst(c);
      PwAdd(c, 1, 1);
      CgMod(c * c, m);
      PwCong(d, c, 2, Pow(2, n - 1), m);
      CgTrans(Squares(d, m, n - 1), Pw(d, Pow(2, n - 1)), Pw(c, Pow(2, n)), m);
    }
  }

  lemma PwFirst(c: nat)
    ensures Pw(c, 1) == c
  {
    PowStep(c, 0);
  }

  lemma SquaresRoot(c: nat, m: nat, k: nat)
    requires k >= 1 && m > 0 && Squares(c, m, k - 1) == m - 1
    ensures Root(c, k, m)
  {
    hide *;
    SquaresAre(c, m, k - 1);
    RootIs(c, k, m);
    CgIntro(-1, m - 1, m, -1);
    CgTrans(-1, m - 1, Pw(c, Pow(2, k - 1)), m);
    CgSym(-1, Pw(c, Pow(2, k - 1)), m);
  }

  lemma Nine(c: nat, m: nat, x1: nat, x2: nat, x3: nat, x4: nat, x5: nat, x6: nat, x7: nat, x8: nat, x9: nat)
    requires m > 0 && x1 == c * c % m && x2 == x1 * x1 % m && x3 == x2 * x2 % m && x4 == x3 * x3 % m
      && x5 == x4 * x4 % m
    requires x6 == x5 * x5 % m && x7 == x6 * x6 % m && x8 == x7 * x7 % m && x9 == x8 * x8 % m
    ensures Squares(c, m, 9) == x9
  {
    hide Squares;
    SquareOnce(c, m, 8);
    SquareOnce(x1, m, 7);
    SquareOnce(x2, m, 6);
    SquareOnce(x3, m, 5);
    SquareOnce(x4, m, 4);
    SquareOnce(x5, m, 3);
    SquareOnce(x6, m, 2);
    SquareOnce(x7, m, 1);
    SquareOnce(x8, m, 0);
    SquaresNone(x9, m);
  }

  lemma SquareOnce(c: nat, m: nat, n: nat)
    requires m > 0
    ensures Squares(c, m, n + 1) == Squares(c * c % m, m, n)
  {}

  lemma SquaresNone(c: nat, m: nat)
    requires m > 0
    ensures Squares(c, m, 0) == c
  {}

  lemma Ten(c: nat, m: nat, x1: nat, x2: nat, x3: nat, x4: nat, x5: nat, x6: nat, x7: nat, x8: nat, x9: nat, x10: nat)
    requires m > 0 && x1 == c * c % m && x2 == x1 * x1 % m && x3 == x2 * x2 % m && x4 == x3 * x3 % m
      && x5 == x4 * x4 % m
    requires x6 == x5 * x5 % m && x7 == x6 * x6 % m && x8 == x7 * x7 % m && x9 == x8 * x8 % m && x10 == x9 * x9 % m
    ensures Squares(c, m, 10) == x10
  {
    hide Squares;
    SquareOnce(c, m, 9);
    Nine(x1, m, x2, x3, x4, x5, x6, x7, x8, x9, x10);
  }

  lemma Fifty(c: nat, m: nat, x1: nat, x2: nat, x3: nat, x4: nat)
    requires m > 0 && Squares(c, m, 10) == x1 && Squares(x1, m, 10) == x2 && Squares(x2, m, 10) == x3
    requires Squares(x3, m, 10) == x4 && Squares(x4, m, 10) == m - 1
    ensures Root(c, 51, m)
  {
    hide Squares;
    SquaresAdd(c, m, 10, 10);
    SquaresAdd(c, m, 20, 10);
    SquaresAdd(c, m, 30, 10);
    SquaresAdd(c, m, 40, 10);
    SquaresRoot(c, m, 51);
  }

  lemma Nineteen(c: nat, m: nat, x1: nat)
    requires m > 0 && Squares(c, m, 10) == x1 && Squares(x1, m, 9) == m - 1
    ensures Root(c, 20, m)
  {
    hide Squares;
    SquaresAdd(c, m, 10, 9);
    SquaresRoot(c, m, 20);
  }

  /** The inverse of a root of order 2^k has that order too. */
  lemma InverseRoot(w: nat, v: nat, k: nat, m: int)
    requires k >= 1 && Root(w, k, m) && Cg(w * v, 1, m)
    ensures Root(v, k, m)
  {
    hide *;
    RootIs(w, k, m);
    RootIs(v, k, m);
    var h := Pow(2, k - 1);
    InversePowers(w, v, h, m);
    var p, q := Pw(w, h), Pw(v, h);
    CgScale(p, -1, q, m);
    CgSym(p * q, -1 * q, m);
    CgTrans(-1 * q, p * q, 1, m);
    CgScale(-1 * q, 1, -1, m);
    assert -1 * (-1 * q) == q && -1 * 1 == -1;
  }

  lemma RootWide0()
    ensures Root(0x1b8ea61034a2bea7, 51, 0x28d8000000000001)
  {
    hide Root, Squares;
    Ten(0x1b8ea61034a2bea7, 0x28d8000000000001, 0x11bf2acc9c713d40, 0x117ecd40b8f23ce3, 0x45ca06b7dd55768,
      0x2063daa5f3ab2b8f, 0x1a8676cd7378a4a2, 0x78addfbaf5d977, 0x1af47adc2454618d, 0xd47e59d2827ff15,
      0x66b730a50ae367d, 0x27c9981f5b3ed347);
    Ten(0x27c9981f5b3ed347, 0x28d8000000000001, 0x765065a915fa984, 0xb1428bc341579c0, 0x1ee40846a81bd08,
      0xce74593826adfd0, 0x4604dfcc67800f8, 0x250ce92091a519ae, 0x9ad967836a0d03d, 0xf79df39b7a793dd,
      0x1020b13077495562, 0x808861f0e23310c);
    Ten(0x808861f0e23310c, 0x28d8000000000001, 0x1881d30f64dde1b2, 0xba18994b0308683, 0x2bc9718ea5abba3,
      0x1ba0869095d3d799, 0x6d7161052ed33c7, 0x25ee3bd9c046a388, 0x524cb3892ce2ac, 0x21e3892da47bfed1,
      0x1a6a218533869415, 0x1e40f499a11e5c2f);
    Ten(0x1e40f499a11e5c2f, 0x28d8000000000001, 0x1eea26409f9fadd8, 0x29490b7904c808c, 0x381b45240bee56d,
      0xbe930411abbd7ef, 0x1b2cc404c1f00eab, 0x1b758c419b9072ed, 0x931dd93b729b453, 0x224524552b855f94,
      0x1020098506d09868, 0x19865c9022733918);
    Ten(0x19865c9022733918, 0x28d8000000000001, 0x1480b64fff3cb853, 0x16070c056f2e8ff4, 0x1620b4151aecbd96,
      0x3420ab6137bbd61, 0x2719ec745b89fb2d, 0x276d1af9b2668e7b, 0x225c203ea7b1acc0, 0x240936938e1ab821,
      0x22ddbb3c2ad555da, 0x28d8000000000000);
    Fifty(0x1b8ea61034a2bea7, 0x28d8000000000001, 0x27c9981f5b3ed347, 0x808861f0e23310c, 0x1e40f499a11e5c2f,
        0x19865c9022733918);
  }

  lemma RootNarrow0()
    ensures Root(0x32525f31, 20, 0x32b00001)
  {
    hide Root, Squares;
    Ten(0x32525f31, 0x32b00001, 0x11c3fc0e, 0x9c5887c, 0x2be9bc39, 0x1ea82a8, 0x21cc8383, 0x114dc211, 0x226f8911,
      0x5ec2b3a, 0x2c1b615f, 0x2a01a980);
    Nine(0x2a01a980, 0x32b00001, 0x189a5109, 0x27e99b73, 0x105ce02c, 0x3044c9de, 0x6373c57, 0x2827c3d0, 0x356c3c0,
      0x1bc5c1bf, 0x32b00000);
    Nineteen(0x32525f31, 0x32b00001, 0x2a01a980);
  }

  lemma RootWide1()
    ensures Root(0x21a9762de58206fb, 51, 0x2a88000000000001)
  {
    hide Root, Squares;
    Ten(0x21a9762de58206fb, 0x2a88000000000001, 0xc115151fccaa3b6, 0x1933cae903d6df84, 0x18ced8f84565af47,
      0x10d701bec133727f, 0xf78a7db7410d9f9, 0x16e656d8509df599, 0x188bef80e2704c11, 0x1c318b73df288f7a,
      0x262a41498b083a7, 0x95660e210288c6a);
    Ten(0x95660e210288c6a, 0x2a88000000000001, 0xd97b8fe678e8d34, 0xa46e05bdca82f31, 0x13f1190692921afa,
      0x110b6c5ed7a45289, 0x29d6f683253995cf, 0xfd60a2a200f9c26, 0x2738a11d5cd1c02c, 0x13391b2515ab46f8,
      0x13e82823a00faf4b, 0x2453b59951f862eb);
    Ten(0x2453b59951f862eb, 0x2a88000000000001, 0x20208e091c61e871, 0x19109e9184890ca7, 0x16a696d4620b5233,
      0x112c70cff4f937c8, 0x23cbffd3ac83c407, 0x28ed6ee4f7941100, 0x1f7efd54d99ae8f3, 0xf9234a42f60ed3d,
      0x16361632299e1269, 0x8dfc85ec8f66421);
    Ten(0x8dfc85ec8f66421, 0x2a88000000000001, 0x162affd6d19e3f6d, 0x1ba70f27ded992c5, 0xc74896769ae521,
      0x78c95dc9fe7d84e, 0x26f15b9d4656e9fe, 0x211501d49e89e6db, 0x13d5227e55bcd481, 0x2b4e46443b48209,
      0x9b98236f89da2c7, 0x25b15c692eacff82);
    Ten(0x25b15c692eacff82, 0x2a88000000000001, 0x12fe079fb471ccf6, 0x1c7f25769cdefca6, 0x19458bb7142589e2,
      0x1044bb49e3593fb, 0xa951fcee81e1917, 0x10ae703a3f62fd23, 0xbac4480425c3eec, 0x146bd875e06a2fc4,
      0x236e45c7a9102530, 0x2a88000000000000);
    Fifty(0x21a9762de58206fb, 0x2a88000000000001, 0x95660e210288c6a, 0x2453b59951f862eb, 0x8dfc85ec8f66421,
      0x25b15c692eacff82);
  }

  lemma RootNarrow1()
    ensures Root(0x5eb3b37, 20, 0x33700001)
  {
    hide Root, Squares;
    Ten(0x5eb3b37, 0x33700001, 0xa8e0a90, 0x10d51d3b, 0x17024cc9, 0x4411d9b, 0x7486761, 0x8473991, 0x67ad412,
      0x1af4d90d, 0x2bbe91e0, 0x231bd30d);
    Nine(0x231bd30d, 0x33700001, 0x2025c9e3, 0x1decc2ee, 0x684c611, 0x1802d188, 0x26fa02ff, 0x1fdc2b34, 0x18ea296,
      0x42e1e83, 0x33700000);
    Nineteen(0x5eb3b37, 0x33700001, 0x231bd30d);
  }

  lemma RootWide2()
    ensures Root(0x2ca782f0756a8ea, 51, 0x2ed8000000000001)
  {
    hide Root, Squares;
    Ten(0x2ca782f0756a8ea, 0x2ed8000000000001, 0x7f8af468fa96c01, 0x2893e1a955313b47, 0x119875c71c305e20,
      0xfea39f4f588e372, 0x3616ec68cc63a53, 0x1dd280e8ca562289, 0x89b4335356f5ba9, 0x46e97af40d727e, 0xc73b3b44a90e273,
      0x61dfe8ca6992956);
    Ten(0x61dfe8ca6992956, 0x2ed8000000000001, 0x1d3e5bdaac52234d, 0x1575c284b0956e53, 0x15be952d05199cd2,
      0x1847a2dddac12664, 0x962b718917de5a0, 0x1d0441ae2fbb4b0e, 0x10bc206b633195d3, 0xd4e22f9033841f,
      0x2ba776ed50d8b268, 0x2783d493568cb20b);
    Ten(0x2783d493568cb20b, 0x2ed8000000000001, 0x292654bbfb073949, 0xb0aea6ed03a0b36, 0x1f4c53ba8b9be4fe,
      0x1186c4d8d6712ea1, 0x2883edd0b24d7431, 0x133a9d8b542f301b, 0x1345aa59bc4d4ab9, 0x15517f78be3ba004,
      0x167add39f82a332c, 0x126cd52ee5f02406);
    Ten(0x126cd52ee5f02406, 0x2ed8000000000001, 0x2f285446e0e92d, 0x2644ab2c4cd4e358, 0xc2993c49ed39235,
      0x9fc2f6fc81e4e61, 0x185e1567702365d4, 0x15c2be1efb484f5a, 0x3173e6d0fed32fb, 0x2c1a707e395ae3bc,
      0x2c985ac26b3d5b61, 0x2956b4b2229d8a8b);
    Ten(0x2956b4b2229d8a8b, 0x2ed8000000000001, 0x2e5f530afca3420d, 0x3d58c348242857b, 0x11120bcfa53759b0,
      0xf680f483975f033, 0x22f1a7a7bbadcd3b, 0x1970ef6c9cbcd317, 0x14bc81fbda4489b1, 0x1fbd441fe5e70563,
      0x15ebb0edef885436, 0x2ed8000000000000);
    Fifty(0x2ca782f0756a8ea, 0x2ed8000000000001, 0x61dfe8ca6992956, 0x2783d493568cb20b, 0x126cd52ee5f02406,
      0x2956b4b2229d8a8b);
  }

  lemma RootNarrow2()
    ensures Root(0x246eda9f, 20, 0x36d00001)
  {
    hide Root, Squares;
    Ten(0x246eda9f, 0x36d00001, 0x20bfc443, 0x36cf92a4, 0x2eb853c9, 0x26997016, 0x2ac0ad11, 0x28175aec, 0x4cfe9c3,
      0xa2633d, 0x2fa5b72, 0x348d38e);
    Nine(0x348d38e, 0x36d00001, 0xab10073, 0xad0567f, 0x1bb76a75, 0x2c473bf5, 0x311c1824, 0x2856b0df, 0x142792b2,
      0x1f225658, 0x36d00000);
    Nineteen(0x246eda9f, 0x36d00001, 0x348d38e);
  }

  lemma RootWide3()
    ensures Root(0x278384537a3e50a1, 51, 0x3508000000000001)
  {
    hide Root, Squares;
    Ten(0x278384537a3e50a1, 0x3508000000000001, 0xd82aa94862db309, 0x17c5b1d8edc947b5, 0x1f0991d2b810c767,
      0x158dad655569cce8, 0x343a21dd03b176d0, 0xbd704064191e73e, 0x30d37af324a91bf3, 0x10c457f05ef48610,
      0x336d9c346ad224cd, 0xc5ddfd400bd872);
    Ten(0xc5ddfd400bd872, 0x3508000000000001, 0x1215afd41184f7b4, 0x1dca774d45bb85bb, 0x2590abd47f6f2b7b,
      0x3431c6d1a0e183d2, 0x2ba9d15184e56f91, 0xa077f0e808f55e7, 0x10e4aca6fe02a647, 0x27a6aad24167a986,
      0x2ad8532952214a5d, 0x197defb964696287);
    Ten(0x197defb964696287, 0x3508000000000001, 0xb87fab71e36ea1a, 0x1690822d1f88258f, 0x1e52d2eacbc69b26,
      0xeb3bb6912cb9ea0, 0x77bb40c803c1315, 0x2013203188e97741, 0x18d07bde7b143666, 0x334456414536a778,
      0x8dc7997ac088ab6, 0x1ac41ca88e35b838);
    Ten(0x1ac41ca88e35b838, 0x3508000000000001, 0x11c342f956abb257, 0x7fc7ef283fe83b4, 0x24e0c3613c97a76a,
      0xf2aad0a6ea1df84, 0x113ef3259d22e0e7, 0x80798a2565138f9, 0x33d53835ce5bc3ad, 0xf532653e3b244ce,
      0xc39b4ae0e71ff75, 0x2484f63c7f3a0060);
    Ten(0x2484f63c7f3a0060, 0x3508000000000001, 0x2d85376e2b036871, 0x2ac7b1f3aa076f6e, 0xc62d8c29ed3e71c,
      0x22b72fb700b997ff, 0x477b150e0cdd0d0, 0x82a9b91aafa024c, 0x1255b0fb439fed7f, 0x12b6abe6c05ea197,
      0x1639a4efab5872e6, 0x3508000000000000);
    Fifty(0x278384537a3e50a1, 0x3508000000000001, 0xc5ddfd400bd872, 0x197defb964696287, 0x1ac41ca88e35b838,
      0x2484f63c7f3a0060);
  }

  lemma RootNarrow3()
    ensures Root(0x35f25901, 20, 0x37300001)
  {
    hide Root, Squares;
    Ten(0x35f25901, 0x37300001, 0x3679dba3, 0x10e0395f, 0x1e525aa3, 0x1fda2409, 0xc14464c, 0x2cb8d3c1, 0x3d9fee9,
      0x13a05ffc, 0x2e122b6b, 0x5634046);
    Nine(0x5634046, 0x37300001, 0x1e206cc6, 0x30a579b6, 0x1b2820c7, 0x2655723, 0x2d9c2e46, 0x63b5f70, 0x1360299a,
      0x9453d53, 0x37300000);
    Nineteen(0x35f25901, 0x37300001, 0x5634046);
  }

  lemma RootWide4()
    ensures Root(0x106e13fee74ce0ab, 51, 0x3aa8000000000001)
  {
    hide Root, Squares;
    Ten(0x106e13fee74ce0ab, 0x3aa8000000000001, 0x2ab4e3986f2ee22c, 0x99040fca134ac6b, 0x117d12ab5ecb3741,
      0x7d5f7dc1c1f064c, 0x34744e3bc14f85e3, 0xfd68f624aa11dbb, 0x18686bf84cb33e74, 0x3530cf4f724d4754,
      0x500c9b305228d71, 0x13ea5d9520df4233);
    Ten(0x13ea5d9520df4233, 0x3aa8000000000001, 0xdf5a5ca37b8046e, 0x396e257658ca538, 0x6e738d90aaf4949,
      0x154a5bd6583090cf, 0x16605fa7ea67abaa, 0x29528a36b3b3ad3e, 0xb445908ec80a80, 0x38cd2dec35b1a093,
      0x37a3654336860829, 0x16d4e6036332f01f);
    Ten(0x16d4e6036332f01f, 0x3aa8000000000001, 0x21deac0f1b7c42e3, 0x37d19eb869380dee, 0x35f275215541e0fa,
      0x37a7a16e0d67f70b, 0xa6b48a027ed9cb0, 0x1af75487599c3922, 0x17aee30790b9e2b3, 0x1de18789eb23e9e0,
      0xf54a92367f882db, 0x1e99135084ab55df);
    Ten(0x1e99135084ab55df, 0x3aa8000000000001, 0x2c8dcbb44789fc3d, 0x1bbbb5ff84595c2b, 0x210be1ecd56e9b43,
      0x31cf0e77383bda15, 0x230389d03a9741a9, 0x2c01d728b756e204, 0x1b1a6ae0e8214e50, 0x3a19a8749981d638,
      0x38236c52f5edb34c, 0x2d6d4ea45938d2da);
    Ten(0x2d6d4ea45938d2da, 0x3aa8000000000001, 0x2af11c7b4888771b, 0x2e7b6c570b501118, 0x339a275f79ea4bbd,
      0x376da315b593dc22, 0xb831418ae2216ee, 0x1acd71a3bfdfd8de, 0x226a78b52d57311, 0x341060b345a6187d,
      0x190871e7f52cc53, 0x3aa8000000000000);
    Fifty(0x106e13fee74ce0ab, 0x3aa8000000000001, 0x13ea5d9520df4233, 0x16d4e6036332f01f, 0x1e99135084ab55df,
        0x2d6d4ea45938d2da);
  }

  lemma RootNarrow4()
    ensures Root(0x22f5768, 20, 0x3e500001)
  {
    hide Root, Squares;
    Ten(0x22f5768, 0x3e500001, 0xc943d62, 0x30bdc728, 0x341eff54, 0x305fbee2, 0x17b295bb, 0x218c137c, 0x3a2c145a,
      0x2b3f99f4, 0x2c93d4a, 0x36507589);
    Nine(0x36507589, 0x3e500001, 0x13ec7a1, 0x1201546f, 0x14732a84, 0x3c217d27, 0x55693ab, 0x118cc1cc, 0x1ff3e0ed,
      0x181b1f6c, 0x3e500000);
    Nineteen(0x22f5768, 0x3e500001, 0x36507589);
  }

  /** Every entry of the root tables has order 2^RootOrder(), and the two tables are inverse. */
  lemma RootsSound(j: nat)
    requires j < NB_MODS
    ensures Root(Roots()[j], RootOrder(), Mods()[j]) && Root(InverseRoots()[j], RootOrder(), Mods()[j])
    ensures Roots()[j] < Mods()[j] && InverseRoots()[j] < Mods()[j] && Cg(Roots()[j] * InverseRoots()[j], 1, Mods()[j])
  {
    hide Root, Cg;
    PairsSound(j);
    if j == 0 {
      RootWide0();
      RootNarrow0();
    } else if j == 1 {
      RootWide1();
      RootNarrow1();
    } else if j == 2 {
      RootWide2();
      RootNarrow2();
    } else if j == 3 {
      RootWide3();
      RootNarrow3();
    } else if j == 4 {
      RootWide4();
      RootNarrow4();
    }
    InverseRoot(Roots()[j], InverseRoots()[j], RootOrder(), Mods()[j]);
  }

  lemma PairsSound(j: nat)
    requires j < NB_MODS
    ensures Roots()[j] < Mods()[j] && InverseRoots()[j] < Mods()[j] && Cg(Roots()[j] * InverseRoots()[j], 1, Mods()[j])
  {
    hide Cg, Roots, InverseRoots, Mods;
    if LIMB_BITS == 64 {
      WidePair(j);
    } else {
      NarrowPair(j);
    }
    var p, m := Roots()[j] * InverseRoots()[j], Mods()[j];
    CgIntro(p, 1, m, p / m);
  }

  lemma WidePair(j: nat)
    requires j < NB_MODS && LIMB_BITS == 64
    ensures Roots()[j] < Mods()[j] && InverseRoots()[j] < Mods()[j]
    ensures Roots()[j] * InverseRoots()[j] % Mods()[j] == 1
  {
    WideProducts();
    assert j == 0 || j == 1 || j == 2 || j == 3 || j == 4;
  }

  lemma WideProducts()
    ensures 0x1b8ea61034a2bea7 * 0x233513af133e13b8 % 0x28d8000000000001 == 1
    ensures 0x21a9762de58206fb * 0x1d13140d1c6f75f1 % 0x2a88000000000001 == 1
    ensures 0x2ca782f0756a8ea * 0x12cde57f97e3eeda % 0x2ed8000000000001 == 1
    ensures 0x278384537a3e50a1 * 0xd6149e23cbe654f % 0x3508000000000001 == 1
    ensures 0x106e13fee74ce0ab * 0x36cd204f522a1379 % 0x3aa8000000000001 == 1
  {}

  lemma NarrowPair(j: nat)
    requires j < NB_MODS && LIMB_BITS != 64
    ensures Roots()[j] < Mods()[j] && InverseRoots()[j] < Mods()[j]
    ensures Roots()[j] * InverseRoots()[j] % Mods()[j] == 1
  {
    NarrowProducts();
    assert j == 0 || j == 1 || j == 2 || j == 3 || j == 4;
  }

  lemma NarrowProducts()
    ensures 0x32525f31 * 0x51eba1a % 0x32b00001 == 1
    ensures 0x5eb3b37 * 0x107be10e % 0x33700001 == 1
    ensures 0x246eda9f * 0x1cd574e0 % 0x36d00001 == 1
    ensures 0x35f25901 * 0x53806e6 % 0x37300001 == 1
    ensures 0x22f5768 * 0x2cd6bf98 % 0x3e500001 == 1
  {}

  // ---- moduli ----

  lemma TwoTo29()
    ensures Pow(2, 29) == 0x20000000
  {
    PowAdd(2, 10, 10);
    PowAdd(2, 20, 9);
    hide *;
  }

  lemma TwoTo61()
    ensures Pow(2, 61) == 0x2000000000000000
  {
    hide Pow;
    TwoTo29();
    PowAdd(2, 29, 29);
    PowAdd(2, 58, 3);
    PowStep(2, 0);
    PowStep(2, 1);
    PowStep(2, 2);
  }

  lemma ModsSound()
    ensures forall t :: 0 <= t < NB_MODS ==> Modulus(Mods()[t]) && Mods()[t] > 1 && Mods()[t] % 2 == 1
    ensures forall s, t :: 0 <= s < t < NB_MODS ==> Mods()[s] < Mods()[t]
  {
    hide Pow, P;
    TwoTo29();
    TwoTo61();
    PIs();
  }

  lemma PIs()
    ensures P == Pow(2, LIMB_BITS - 3)
  {}

  // ---- inverses between moduli ----

  /** The last nb moduli, and the part of ntt_mods_cr that belongs to them. */
  function LastMods(nb: nat): (s: seq<nat>)
    requires nb <= NB_MODS
    ensures |s| == nb
  {
    Mods()[NB_MODS - nb..]
  }

  function LastCr(nb: nat): (s: seq<nat>)
    requires 1 <= nb <= NB_MODS
  {
    CrOffset(nb);
    ModsCr()[Pairs(NB_MODS) - Pairs(nb)..]
  }

  /** The number of pairs of nb moduli. */
  function Pairs(nb: nat): (n: int) { nb * (nb - 1) / 2 }

  lemma CrOffset(nb: nat)
    requires 1 <= nb <= NB_MODS
    ensures Pairs(nb) == (if nb == 1 then 0 else if nb == 2 then 1 else if nb == 3 then 3 else if nb == 4 then 6
      else 10)
    ensures Pairs(NB_MODS) == 10
  {}

  lemma CrPlace(nb: nat, j: nat)
    requires 1 <= nb <= NB_MODS && j < nb
    ensures CrBase(nb, j)
      == (if j == 0 then 0 else if j == 1 then nb - 1 else if j == 2 then 2 * nb - 3 else if j == 3 then 3 * nb - 6
      else 4 * nb - 10)
    ensures CrBase(nb, nb) == Pairs(nb)
  {
    hide CrBase, Pairs;
    CrOffset(nb);
    CrUpTo(nb, 0);
    CrUpTo(nb, 1);
    if nb >= 2 { CrUpTo(nb, 2); }
    if nb >= 3 { CrUpTo(nb, 3); }
    if nb >= 4 { CrUpTo(nb, 4); }
    if nb >= 5 { CrUpTo(nb, 5); }
  }

  lemma CrUpTo(nb: nat, j: nat)
    requires j <= nb
    ensures j == 0 ==> CrBase(nb, j) == 0
    ensures j > 0 ==> CrBase(nb, j) == CrBase(nb, j - 1) + (nb - j)
  {}

  /** Entry l of the flat table inverts modulus j modulo modulus k. */
  lemma CrPair(j: nat, k: nat, l: nat)
    requires j < k < NB_MODS && l == (if j == 0 then 0 else if j == 1 then 4 else if j == 2 then 7 else 9) + (k - j - 1)
    ensures l < 10 && ModsCr()[l] < Mods()[k] && Cg(ModsCr()[l] * Mods()[j], 1, Mods()[k])
  {
    hide Cg, Mods, ModsCr;
    if j == 0 {
      CrFirst(k);
    } else if j == 1 {
      CrSecond(k);
    } else {
      CrThird(j, k);
    }
  }

  lemma IsInverse(c: nat, a: nat, m: nat)
    requires m > 0 && (c * a) % m == 1
    ensures Cg(c * a, 1, m)
  {
    hide Cg;
    CgIntro(c * a, 1, m, (c * a) / m);
  }

  lemma CrFirst(k: nat)
    requires 1 <= k < NB_MODS
    ensures ModsCr()[k - 1] < Mods()[k] && Cg(ModsCr()[k - 1] * Mods()[0], 1, Mods()[k])
  {
    hide Cg;
    if k == 1 {
      IsInverse(0x8a9ed097b425eea, 0x28d8000000000001, 0x2a88000000000001);
      IsInverse(0x449559a, 0x32b00001, 0x33700001);
    } else if k == 2 {
      IsInverse(0x18a44aaaaaaaaab3, 0x28d8000000000001, 0x2ed8000000000001);
      IsInverse(0x1eba6ca9, 0x32b00001, 0x36d00001);
    } else if k == 3 {
      IsInverse(0x2493f57f57f57f5d, 0x28d8000000000001, 0x3508000000000001);
      IsInverse(0x2ec18e46, 0x32b00001, 0x37300001);
    } else {
      IsInverse(0x126b8d0649a7f8d4, 0x28d8000000000001, 0x3aa8000000000001);
      IsInverse(0x860160b, 0x32b00001, 0x3e500001);
    }
  }

  lemma CrSecond(k: nat)
    requires 2 <= k < NB_MODS
    ensures ModsCr()[k + 2] < Mods()[k] && Cg(ModsCr()[k + 2] * Mods()[1], 1, Mods()[k])
  {
    hide Cg;
    if k == 2 {
      IsInverse(0x9d80ed7303b5ccc, 0x2a88000000000001, 0x2ed8000000000001);
      IsInverse(0xd321307, 0x33700001, 0x36d00001);
    } else if k == 3 {
      IsInverse(0x25b8bcf3cf3cf3d5, 0x2a88000000000001, 0x3508000000000001);
      IsInverse(0xbf51120, 0x33700001, 0x37300001);
    } else {
      IsInverse(0x2ce6ce63398ce638, 0x2a88000000000001, 0x3aa8000000000001);
      IsInverse(0xf662938, 0x33700001, 0x3e500001);
    }
  }

  lemma CrThird(j: nat, k: nat)
    requires 2 <= j < k < NB_MODS
    ensures var l := (if j == 2 then 7 else 9) + (k - j - 1);
      ModsCr()[l] < Mods()[k] && Cg(ModsCr()[l] * Mods()[j], 1, Mods()[k])
  {
    hide Cg;
    if j == 2 && k == 3 {
      IsInverse(0xe31fad40a57eb59, 0x2ed8000000000001, 0x3508000000000001);
      IsInverse(0x932ab3e, 0x36d00001, 0x37300001);
    } else if j == 2 && k == 4 {
      IsInverse(0x2a3529fd4a7f52f, 0x2ed8000000000001, 0x3aa8000000000001);
      IsInverse(0x2f40eef8, 0x36d00001, 0x3e500001);
    } else {
      IsInverse(0x3a5493e93e93e94a, 0x3508000000000001, 0x3aa8000000000001);
      IsInverse(0x2e760905, 0x37300001, 0x3e500001);
    }
  }

  lemma LastModsAre(nb: nat)
    requires 1 <= nb <= NB_MODS
    ensures forall t :: 0 <= t < nb ==> Modulus(LastMods(nb)[t]) && LastMods(nb)[t] > 1 && LastMods(nb)[t] % 2 == 1
    ensures forall s, t :: 0 <= s < t < nb ==> LastMods(nb)[s] < LastMods(nb)[t]
  {
    hide Mods, Modulus;
    ModsSound();
  }

  lemma LastCrEntry(nb: nat, j: nat, k: nat)
    requires 1 <= nb <= NB_MODS && j < k < nb
    ensures CrEntry(LastMods(nb), LastCr(nb), j, k)
  {
    hide *;
    var o: int, l := 10 - Pairs(nb), CrBase(nb, j) + (k - j - 1);
    PairPlace(nb, j, k, o, l);
    LastAt(nb, o, l, j, k);
    CrPair(j + NB_MODS - nb, k + NB_MODS - nb, l + o);
    EntryIntro(LastMods(nb), LastCr(nb), j, k, l);
  }

  /** The place of a pair in the whole table. */
  lemma PairPlace(nb: nat, j: nat, k: nat, o: int, l: nat)
    requires 1 <= nb <= NB_MODS && j < k < nb && o == 10 - Pairs(nb) && l == CrBase(nb, j) + (k - j - 1)
    ensures 0 <= o + l < 10
    ensures var j' := j + NB_MODS - nb;
      l + o == (if j' == 0 then 0 else if j' == 1 then 4 else if j' == 2 then 7 else 9) + (k - j - 1)
  {
    hide CrBase, Pairs;
    CrPlace(nb, j);
    CrOffset(nb);
  }

  lemma LastAt(nb: nat, o: int, l: nat, j: nat, k: nat)
    requires 1 <= nb <= NB_MODS && j < k < nb && o == 10 - Pairs(nb) && 0 <= o + l < 10
    ensures |LastCr(nb)| == 10 - o && LastCr(nb)[l] == ModsCr()[l + o]
    ensures LastMods(nb)[j] == Mods()[j + NB_MODS - nb] && LastMods(nb)[k] == Mods()[k + NB_MODS - nb]
  {
    hide Mods, ModsCr, Pairs;
    CrOffset(nb);
  }

  lemma EntryIntro(mods: seq<nat>, cr: seq<nat>, j: nat, k: nat, l: nat)
    requires j < k < |mods| && l == CrBase(|mods|, j) + (k - j - 1)
    requires l < |cr| && cr[l] < mods[k] && Cg(cr[l] * mods[j], 1, mods[k])
    ensures CrEntry(mods, cr, j, k)
  {
    hide Cg, CrBase;
  }

  /** The inverses belong to the moduli, whichever number of them is used. */
  lemma CrSound(nb: nat)
    requires 1 <= nb <= NB_MODS
    ensures CrtTable(LastMods(nb), LastCr(nb))
  {
    LastModsAre(nb);
    CrOffset(nb);
    CrPlace(nb, 0);
    var mods, cr := LastMods(nb), LastCr(nb);
    assert |cr| == Pairs(nb) by { hide Mods, CrBase, Modulus, Pairs; }
    hide Mods, ModsCr, Modulus, Cg, CrBase, CrEntry, LastMods, LastCr;
    forall j: nat, k: nat | j < k < nb
      ensures CrEntry(mods, cr, j, k)
    {
      LastCrEntry(nb, j, k);
    }
  }

  // ---- sizes ----

  /** The product of the last nb moduli has the bits that the size table promises. */
  lemma IntBitsSound(nb: nat)
    requires 3 <= nb <= NB_MODS
    ensures Pow(2, IntBits()[NB_MODS - nb]) <= NttCrt.Product(LastMods(nb), nb)
    ensures 2 * LIMB_BITS <= IntBits()[NB_MODS - nb]
  {
    hide Pow, NttCrt.Product;
    TwoTo29();
    TwoTo61();
    WideSizes();
    NarrowSizes();
    var s := LastMods(nb);
    ProductUpTo(s, 3);
    if nb >= 4 { ProductUpTo(s, 4); }
    if nb >= 5 { ProductUpTo(s, 5); }
  }

  lemma ProductUpTo(s: seq<nat>, j: nat)
    requires 3 <= j <= 5 && j <= |s|
    ensures j == 3 ==> NttCrt.Product(s, j) == s[0] * s[1] * s[2]
    ensures j > 3 ==> NttCrt.Product(s, j) == NttCrt.Product(s, j - 1) * s[j - 1]
  {
    assert NttCrt.Product(s, 0) == 1 && NttCrt.Product(s, 1) == 1 * s[0]
      && NttCrt.Product(s, 2) == NttCrt.Product(s, 1) * s[1];
  }

  lemma WideSizes()
    ensures Pow(2, 185) == 0x20000000000000000000000000000000000000000000000
    ensures Pow(2, 246) == 0x40000000000000000000000000000000000000000000000000000000000000
    ensures Pow(2, 307) == 0x80000000000000000000000000000000000000000000000000000000000000000000000000000
  {
    hide Pow;
    TwoTo61();
    PowStep(2, 0);
    PowStep(2, 1);
    PowAdd(2, 61, 61);
    PowAdd(2, 122, 61);
    PowAdd(2, 183, 2);
    PowAdd(2, 185, 61);
    PowAdd(2, 246, 61);
  }

  lemma NarrowSizes()
    ensures Pow(2, 89) == 0x20000000000000000000000
    ensures Pow(2, 119) == 0x800000000000000000000000000000
    ensures Pow(2, 148) == 0x10000000000000000000000000000000000000
  {
    hide Pow;
    TwoTo29();
    PowStep(2, 0);
    PowStep(2, 1);
    PowAdd(2, 29, 29);
    PowAdd(2, 58, 29);
    PowAdd(2, 87, 2);
    PowAdd(2, 89, 29);
    PowAdd(2, 118, 1);
    PowAdd(2, 119, 29);
  }
}
