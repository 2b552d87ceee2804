/**
 util/crypt_blowfish.c, BF_ENCRYPT: sixteen rounds on two words, for any P words and
 S boxes.
 */
module BcryptCipher {
  type byte = bv8
  type word = bv32

  const N := 16

  /** The P words and the four S boxes as they are at some moment of the key schedule. */
  datatype Context = Context(p: seq<word>, s: seq<seq<word>>)

  predicate ContextOk(ctx: Context) {
    |ctx.p| == N + 2 && |ctx.s| == 4 && forall i :: 0 <= i < 4 ==> |ctx.s[i]| == 256
  }

  function Index(b: byte): (n: nat)
    ensures n < 256
  {
    b as nat
  }

  /** What the round adds up from the S boxes for the four bytes of a word. */
  function Mix(ctx: Context, l: word): word
    requires ContextOk(ctx)
  {
    var a, b, c, d := (l >> 24) as byte, ((l >> 16) & 0xff) as byte, ((l >> 8) & 0xff) as byte, (l & 0xff) as byte;
    Blend(ctx.s[0][Index(a)], ctx.s[1][Index(b)], ctx.s[2][Index(c)], ctx.s[3][Index(d)])
  }

  function Blend(w0: word, w1: word, w2: word, w3: word): word {
    ((w1 + w0) ^ w2) + w3
  }

  function Xor(a: word, b: word): word { a ^ b }

  /** The new value of the other word in round n. */
  function Round(ctx: Context, l: word, r: word, n: nat): word
    requires ContextOk(ctx) && n < N
  {
    Xor(Xor(r, ctx.p[n + 1]), Mix(ctx, l))
  }

  datatype Block = Block(l: word, r: word)

  /** The first k rounds, each with the words in exchanged roles. */
  function Rounds(ctx: Context, b: Block, k: nat): Block
    requires ContextOk(ctx) && k <= N
  {
    if k == 0 then b
    else
      var m := Rounds(ctx, b, k - 1);
      Block(Round(ctx, m.l, m.r, k - 1), m.l)
  }

  function Encrypt(ctx: Context, b: Block): Block
    requires ContextOk(ctx)
  {
    var m := Rounds(ctx, Block(Xor(b.l, ctx.p[0]), b.r), N);
    Block(Xor(m.r, ctx.p[N + 1]), m.l)
  }

  lemma BytesBack(a: byte, b: byte, c: byte, d: byte)
    ensures var l := ((a as word) << 24) | ((b as word) << 16) | ((c as word) << 8) | (d as word);
      (l >> 24) as byte == a && ((l >> 16) & 0xff) as byte == b && ((l >> 8) & 0xff) as byte == c && (l & 0xff) as byte == d
  {}

  lemma MixOf(ctx: Context, l: word, a: byte, b: byte, c: byte, d: byte)
    requires ContextOk(ctx)
    requires (l >> 24) as byte == a && ((l >> 16) & 0xff) as byte == b
    requires ((l >> 8) & 0xff) as byte == c && (l & 0xff) as byte == d
    ensures Mix(ctx, l) == Blend(ctx.s[0][a as int], ctx.s[1][b as int], ctx.s[2][c as int], ctx.s[3][d as int])
  {
    hide Blend;
  }

  lemma BlendIs(w0: word, w1: word, w2: word, w3: word)
    ensures Blend(w0, w1, w2, w3) == ((w0 + w1) ^ w2) + w3
  {}

  /**
   Which S box each byte of a word goes to, the first to the first and so on, and what is made of the four entries.
   */
  lemma MixIs(ctx: Context, l: word, a: byte, b: byte, c: byte, d: byte, w0: word, w1: word, w2: word, w3: word)
    requires ContextOk(ctx) && l == ((a as word) << 24) | ((b as word) << 16) | ((c as word) << 8) | (d as word)
    requires w0 == ctx.s[0][a as int] && w1 == ctx.s[1][b as int] && w2 == ctx.s[2][c as int] && w3 == ctx.s[3][d as int]
    ensures Mix(ctx, l) == ((w0 + w1) ^ w2) + w3
  {
    hide Mix, Blend;
    BytesBack(a, b, c, d);
    MixOf(ctx, l, a, b, c, d);
    BlendIs(w0, w1, w2, w3);
  }

  /**
   The sixteen rounds on their concrete words: each word is made from the two before it, and the last two are the result,
   exchanged.  The value added for the word in between is the one that `MixIs` gives for its bytes.
   */
  lemma EncryptIs(ctx: Context, b: Block, w: seq<word>)
    requires ContextOk(ctx) && |w| == 18 && w[0] == b.r && w[1] == Xor(b.l, ctx.p[0])
    requires forall n :: 0 <= n < 16 ==> w[n + 2] == Xor(Xor(w[n], ctx.p[n + 1]), Mix(ctx, w[n + 1]))
    ensures Encrypt(ctx, b) == Block(Xor(w[16], ctx.p[17]), w[17])
  {
    hide Mix, Xor;
    RoundsAre(ctx, b, w, 16);
  }

  lemma {:induction false} RoundsAre(ctx: Context, b: Block, w: seq<word>, k: nat)
    requires ContextOk(ctx) && |w| == 18 && w[0] == b.r && w[1] == Xor(b.l, ctx.p[0]) && k <= 16
    requires forall n :: 0 <= n < 16 ==> w[n + 2] == Xor(Xor(w[n], ctx.p[n + 1]), Mix(ctx, w[n + 1]))
    ensures Rounds(ctx, Block(Xor(b.l, ctx.p[0]), b.r), k) == Block(w[k + 1], w[k])
  {
    hide Mix, Xor;
    if k > 0 {
      RoundsAre(ctx, b, w, k - 1);
      assert w[k - 1 + 2] == Xor(Xor(w[k - 1], ctx.p[k]), Mix(ctx, w[k]));
    }
  }

  /** The rounds taken back, from the last to the first. */
  function Unrounds(ctx: Context, b: Block, k: nat): Block
    requires ContextOk(ctx) && k <= N
    decreases k
  {
    if k == 0 then b else Unrounds(ctx, Block(b.r, Round(ctx, b.r, b.l, k - 1)), k - 1)
  }

  function Decrypt(ctx: Context, b: Block): Block
    requires ContextOk(ctx)
  {
    var m := Unrounds(ctx, Block(b.r, Xor(b.l, ctx.p[N + 1])), N);
    Block(Xor(m.l, ctx.p[0]), m.r)
  }

  lemma XorTwice(a: word, b: word)
    ensures Xor(Xor(a, b), b) == a
  {}

  lemma XorMoves(a: word, b: word, c: word)
    ensures Xor(Xor(Xor(Xor(a, b), c), b), c) == a
  {}

  lemma RoundTwice(ctx: Context, l: word, r: word, n: nat)
    requires ContextOk(ctx) && n < N
    ensures Round(ctx, l, Round(ctx, l, r, n), n) == r
  {
    XorMoves(r, ctx.p[n + 1], Mix(ctx, l));
  }

  lemma {:induction false} UnroundsRounds(ctx: Context, b: Block, k: nat)
    requires ContextOk(ctx) && k <= N
    ensures Unrounds(ctx, Rounds(ctx, b, k), k) == b
  {
    hide Round;
    if k > 0 {
      var m := Rounds(ctx, b, k - 1);
      RoundTwice(ctx, m.l, m.r, k - 1);
      UnroundsRounds(ctx, b, k - 1);
    }
  }

  lemma {:induction false} RoundsUnrounds(ctx: Context, b: Block, k: nat)
    requires ContextOk(ctx) && k <= N
    ensures Rounds(ctx, Unrounds(ctx, b, k), k) == b
    decreases k
  {
    hide Round;
    if k > 0 {
      var m := Block(b.r, Round(ctx, b.r, b.l, k - 1));
      RoundsUnrounds(ctx, m, k - 1);
      RoundTwice(ctx, b.r, b.l, k - 1);
    }
  }

  /** For any P words and S boxes the cipher is a permutation of the blocks. */
  lemma EncryptIsPermutation(ctx: Context, b: Block)
    requires ContextOk(ctx)
    ensures Decrypt(ctx, Encrypt(ctx, b)) == b && Encrypt(ctx, Decrypt(ctx, b)) == b
  {
    hide Rounds, Unrounds, Xor;
    var start := Block(Xor(b.l, ctx.p[0]), b.r);
    UnroundsRounds(ctx, start, N);
    XorTwice(Rounds(ctx, start, N).r, ctx.p[N + 1]);
    XorTwice(b.l, ctx.p[0]);
    var end := Block(b.r, Xor(b.l, ctx.p[N + 1]));
    RoundsUnrounds(ctx, end, N);
    XorTwice(Unrounds(ctx, end, N).l, ctx.p[0]);
    XorTwice(b.l, ctx.p[N + 1]);
  }

  /** The words L and R of the key schedule. */
  class Cipher {
    var l: word
    var r: word

    constructor ()
      ensures l == 0 && r == 0
    {
      l, r := 0, 0;
    }

    /** BF_ROUND(L, R, n) and BF_ROUND(R, L, n + 1) */
    method TwoRounds(ctx: Context, n: nat)
      requires ContextOk(ctx) && n + 1 < N
      modifies this
      ensures r == Round(ctx, old(l), old(r), n) && l == Round(ctx, r, old(l), n + 1)
    {
      r := Round(ctx, l, r, n);
      l := Round(ctx, r, l, n + 1);
    }

    /** BF_ENCRYPT */
    method EncryptBlock(ctx: Context)
      requires ContextOk(ctx)
      modifies this
      ensures Block(l, r) == Encrypt(ctx, old(Block(l, r)))
    {
      hide Round, Xor, Rounds;
      ghost var start := Block(Xor(l, ctx.p[0]), r);
      l := Xor(l, ctx.p[0]);
      NoRounds(ctx, start);
      var n := 0;
      while n < N
        invariant n <= N && n % 2 == 0
        invariant Block(l, r) == Rounds(ctx, start, n)
      {
        TwoMore(ctx, start, n);
        TwoRounds(ctx, n);
        n := n + 2;
      }
      var tmp := r;
      r := l;
      l := Xor(tmp, ctx.p[N + 1]);
    }
  }

  lemma NoRounds(ctx: Context, b: Block)
    requires ContextOk(ctx)
    ensures Rounds(ctx, b, 0) == b
  {}

  lemma TwoMore(ctx: Context, b: Block, n: nat)
    requires ContextOk(ctx) && n + 1 < N
    ensures var m := Rounds(ctx, b, n);
            var r := Round(ctx, m.l, m.r, n);
            Rounds(ctx, b, n + 2) == Block(Round(ctx, r, m.l, n + 1), r)
  {
    hide Round;
    assert Rounds(ctx, b, n + 1) == Block(Round(ctx, Rounds(ctx, b, n).l, Rounds(ctx, b, n).r, n), Rounds(ctx, b, n).l);
  }
}
