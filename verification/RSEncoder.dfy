/** The systematic encoder. */
module RSEncoderModule {
  import opened Bits
  import opened Galois
  import opened Polynomial
  import opened Code
  import opened Encoding
  import opened Message
  import opened RSBaseModule

  class RSEncoder {
    const base: RSBase
    var generatorPoly: seq<nat>

    function Code(): Params { base.codec.code }

    ghost predicate Valid()
      reads this, base, base.gfExp, base.gfLog, base.talTab, base.talTabInv
    {
      base.Valid() && generatorPoly == Generator(Code(), Code().parity)
    }

    constructor (codec: Codec)
      requires codec.Proper()
      ensures Valid() && base.codec == codec
    {
      base := new RSBase(codec);
      generatorPoly := [1];
      new;
      InitGeneratorPoly();
    }

    /** Multiply the factors of the generator polynomial together. */
    method InitGeneratorPoly()
      requires base.Valid() && generatorPoly == [1]
      modifies this
      ensures Valid()
    {
      hide *;
      base.ValidPrimitive();
      var c := base.codec.code;
      var b := [1, 1];
      var i := c.first;
      GeneratorStart(c);
      while i < c.parity + c.first
        invariant c.first <= i <= c.parity + c.first && |b| == 2 && b[0] == 1
        invariant generatorPoly == Generator(c, i - c.first) && base.Valid()
      {
        GeneratorShape(c, i - c.first);
        GeneratorNext(c, i - c.first);
        b := b[1 := base.RootPower(i)];
        assert b == [1, c.RootPow(i)];
        FactorWord(c, i, b);
        generatorPoly := base.GfPolyMul(generatorPoly, b);
        i := i + 1;
      }
      GeneratorReady();
    }

    /** Divide the padded message by the generator in place; optionally put the message back. */
    method EncodeOneWord(msgIn: seq<nat>, copyOrig: bool) returns (msgOut: seq<nat>)
      requires Valid() && |msgIn| <= Code().length && Word(Code().field, msgIn)
      ensures var divided := Divided(Code(), Padded(msgIn, Code().length), base.codec.DataLength());
        msgOut == if copyOrig then msgIn + divided[|msgIn|..] else divided
      ensures copyOrig && |msgIn| + Code().parity == Code().length ==> Code().IsCodeword(msgOut)
    {
      hide *;
      GeneratorIsWord();
      var c := base.codec.code;
      ghost var w := Padded(msgIn, c.length);
      PaddedWord(c, msgIn);
      var a := new nat[c.length](k requires 0 <= k => if k < |msgIn| then msgIn[k] else 0);
      PaddedIs(c, msgIn, a[..]);
      DividedStart(c, w);
      var i := 0;
      while i < c.length - c.parity
        invariant 0 <= i <= c.length - c.parity
        invariant a[..] == Divided(c, w, i)
      {
        DividedKeeps(c, w, i, c.parity);
        ghost var r := a[..];
        DividedNext(c, w, i, r);
        var coef := a[i];
        if coef != 0 { SubtractGenerator(a, coef, i); }
        i := i + 1;
      }
      msgOut := a[..];
      if copyOrig {
        msgOut := msgIn + msgOut[|msgIn|..];
        if |msgIn| + c.parity == c.length { WordIsSystematic(c, msgIn, a[..], msgOut); }
      }
    }

    /** Subtract coef times the generator from the word in place. */
    method SubtractGenerator(a: array<nat>, coef: nat, i: nat)
      requires Valid() && a != base.gfExp && a != base.gfLog && a != base.talTab && a != base.talTabInv
      requires i + |generatorPoly| <= a.Length && Code().field.InField(coef)
      modifies a
      ensures a[..] == SubtractAt(Code().field, old(a[..]), generatorPoly, coef, i)
    {
      hide *;
      GeneratorIsWord();
      var F, g := base.Field(), generatorPoly;
      ghost var r := a[..];
      SubtractNothing(F, r, coef, i);
      assert g[..0] == [];
      var j := 0;
      while j < |g|
        invariant 0 <= j <= |g|
        invariant a[..] == SubtractAt(F, r, g[..j], coef, i)
      {
        SubtractNext(F, r, g, coef, i, j);
        a[i + j] := Xor(a[i + j], base.GfMul(g[j], coef));
        j := j + 1;
      }
      assert g[..|g|] == g;
    }

    lemma GeneratorReady()
      requires base.Valid() && generatorPoly == Generator(base.codec.code, base.codec.code.parity)
      ensures Valid()
    {
    }

    lemma GeneratorIsWord()
      requires Valid()
      ensures base.codec.Proper() && Code().Proper() && Code().field.Primitive() && base.codec.depth >= 1
      ensures Code().parity < Code().length <= Code().field.Order() && base.codec.DataLength() == Code().length - Code().parity
      ensures base.Valid() && Code() == base.codec.code && base.Field() == Code().field
      ensures forall j :: 0 <= j < |generatorPoly| ==> Code().field.InField(generatorPoly[j])
      ensures generatorPoly == Generator(Code(), Code().parity)
    {
      base.ValidPrimitive();
      GeneratorShape(Code(), Code().parity);
    }

    /** The parity symbols of a message, dealt out to all the rows. */
    method Encode(msgIn: seq<nat>) returns (parity: seq<nat>)
      requires Valid() && |msgIn| <= base.codec.DataLength() * base.codec.depth && Word(Code().field, msgIn)
      ensures parity == Message.Encode(base.codec, msgIn)
    {
      base.ValidPrimitive();
      var codec := base.codec;
      ProperBytes(codec, msgIn);
      PlainConversion(codec, msgIn);
      assert codec.Proper();
      hide RSBase.Valid, GF.Primitive, Divided, Codec.Proper, Codec.Conventional, Codec.Transmitted, GF.Size, Interleaved, Columns;
      var msgOut := msgIn;
      if codec.dual { msgOut := base.CcsdsDualBasisToConventional(msgIn, 0, 0); }
      var rows := base.CcsdsInterleave(msgOut, false);
      forall r | 0 <= r < |rows| ensures Word(Code().field, rows[r]) { RowWord(codec, codec.DataLength(), msgOut, r); }
      var encoded := EncodeRows(rows);
      parity := CollectParity(encoded);
      PlainConversion(codec, parity);
      if codec.dual {
        ParityBytes(codec, rows, encoded, parity);
        parity := base.CcsdsConventionalToDualBasis(parity, 0, 0);
      }
    }

    method EncodeRows(rows: seq<seq<nat>>) returns (encoded: seq<seq<nat>>)
      requires Valid() && |rows| == base.codec.depth
      requires forall r :: 0 <= r < |rows| ==> |rows[r]| == Code().length && Word(Code().field, rows[r])
      ensures encoded == seq(base.codec.depth, r requires 0 <= r < base.codec.depth =>
        Divided(Code(), rows[r], base.codec.DataLength()))
    {
      hide *;
      GeneratorIsWord();
      encoded := [];
      for r := 0 to |rows|
        invariant |encoded| == r
        invariant forall k :: 0 <= k < r ==> encoded[k] == Divided(Code(), rows[k], base.codec.DataLength())
      {
        PaddedWhole(rows[r]);
        var word := EncodeOneWord(rows[r], false);
        encoded := encoded + [word];
      }
    }

    /** Read the parity symbols of the encoded rows column by column. */
    method CollectParity(encoded: seq<seq<nat>>) returns (parity: seq<nat>)
      requires Valid() && |encoded| == base.codec.depth
      requires forall r :: 0 <= r < |encoded| ==> |encoded[r]| == Code().length
      ensures parity == Columns(encoded, base.codec.DataLength(), Code().parity)
    {
      base.ValidPrimitive();
      var depth, from, width := base.codec.depth, base.codec.DataLength(), Code().parity;
      assert depth >= 1;
      hide RSBase.Valid, GF.Primitive, Gathered;
      var total: nat := width * depth;
      parity := Zeros(total);
      for o := 0 to width
        invariant |parity| == total
        invariant forall k :: 0 <= k < o * depth && k < total ==> parity[k] == Gathered(encoded, k, from)
      {
        ghost var start := o * depth;
        for row := 0 to depth
          invariant |parity| == total
          invariant forall k :: 0 <= k < start + row && k < total ==> parity[k] == Gathered(encoded, k, from)
        {
          FlatBound(o, width, depth, row);
          ParityPlace(encoded, depth, from, o, row);
          parity := parity[o * depth + row := encoded[row][from + o]];
        }
        assert start + depth == (o + 1) * depth;
      }
    }
  }

  function Padded(msg: seq<nat>, length: nat): (w: seq<nat>)
    requires |msg| <= length
    ensures |w| == length
  {
    msg + Zeros(length - |msg|)
  }

  lemma GeneratorStart(c: Params)
    ensures Generator(c, 0) == [1]
  {
  }

  lemma FactorWord(c: Params, i: nat, b: seq<nat>)
    requires c.field.Primitive() && b == [1, c.RootPow(i)] && c.field.InField(c.RootPow(i))
    ensures Word(c.field, b)
  {
    c.field.OrderPositive();
  }

  lemma GeneratorNext(c: Params, m: nat)
    ensures Generator(c, m + 1) == Product(c.field, Generator(c, m), [1, c.RootPow(m + c.first)])
  {
    hide Product, GF.Pow;
  }

  lemma SubtractNothing(F: GF, w: seq<nat>, coef: nat, i: nat)
    requires i <= |w|
    ensures SubtractAt(F, w, [], coef, i) == w
  {
  }

  lemma SubtractNext(F: GF, w: seq<nat>, g: seq<nat>, coef: nat, i: nat, j: nat)
    requires i + |g| <= |w| && j < |g|
    ensures var r := SubtractAt(F, w, g[..j], coef, i);
      SubtractAt(F, w, g[..j + 1], coef, i) == r[i + j := Xor(r[i + j], F.Mul(g[j], coef))]
  {
    hide Xor, GF.Mul;
  }

  lemma PaddedWhole(w: seq<nat>)
    ensures Padded(w, |w|) == w
  {
  }

  lemma PaddedIs(c: Params, msg: seq<nat>, a: seq<nat>)
    requires |msg| <= c.length == |a| && forall k :: 0 <= k < |a| ==> a[k] == if k < |msg| then msg[k] else 0
    ensures a == Padded(msg, c.length)
  {
  }

  lemma PaddedWord(c: Params, msg: seq<nat>)
    requires |msg| <= c.length && Word(c.field, msg) && c.field.Primitive()
    ensures Word(c.field, Padded(msg, c.length))
  {
  }

  lemma DividedStart(c: Params, w: seq<nat>)
    requires |w| == c.length && c.parity <= c.length
    ensures Divided(c, w, 0) == w
  {
  }

  lemma DividedNext(c: Params, w: seq<nat>, i: nat, r: seq<nat>)
    requires |w| == c.length && c.parity <= c.length && i < c.length - c.parity && r == Divided(c, w, i)
    requires Word(c.field, r)
    ensures c.field.InField(r[i])
    ensures Divided(c, w, i + 1) == if r[i] == 0 then r else SubtractAt(c.field, r, Generator(c, c.parity), r[i], i)
  {
    hide SubtractAt, Generator;
  }

  lemma WordIsSystematic(c: Params, data: seq<nat>, divided: seq<nat>, out: seq<nat>)
    requires c.Proper() && |data| + c.parity == c.length && Word(c.field, data)
    requires divided == Divided(c, Padded(data, c.length), |data|) && out == data + divided[|data|..]
    ensures c.IsCodeword(out)
  {
    hide Params.Proper, Divided, Params.IsCodeword;
    Systematic(c, data);
  }

  lemma PlainConversion(c: Codec, w: seq<nat>)
    ensures !c.dual ==> c.Conventional(w) == w && c.Transmitted(w) == w
  {
  }

  /** Every row of an interleaved message consists of symbols of the field. */
  lemma RowWord(c: Codec, width: nat, msg: seq<nat>, r: nat)
    requires Word(c.code.field, msg) && r < c.depth
    ensures Word(c.code.field, Interleaved(c.depth, width, c.code.length, msg)[r])
  {
    hide GF.Size;
  }

  lemma ParityPlace(encoded: seq<seq<nat>>, depth: nat, from: nat, o: nat, row: nat)
    requires row < depth == |encoded| && from + o < |encoded[row]|
    ensures (o * depth + row) / depth == o && (o * depth + row) % depth == row
    ensures Gathered(encoded, o * depth + row, from) == encoded[row][from + o]
  {
    FlatSplit(o, depth, row);
  }

  lemma ParityBytes(c: Codec, rows: seq<seq<nat>>, encoded: seq<seq<nat>>, parity: seq<nat>)
    requires c.Proper() && c.dual && |rows| == |encoded| == c.depth
    requires forall r :: 0 <= r < c.depth ==> |rows[r]| == c.code.length && Word(c.code.field, rows[r])
    requires forall r :: 0 <= r < c.depth ==> encoded[r] == Divided(c.code, rows[r], c.DataLength())
    requires parity == Columns(encoded, c.DataLength(), c.code.parity)
    ensures forall i :: 0 <= i < |parity| ==> parity[i] < 256
  {
    ProperPrimitive(c.code);
    hide GF.Primitive, Divided, Params.Proper;
    assert c.code.field.Size() == 256 by { assert Two(8) == 256; }
    forall r | 0 <= r < c.depth ensures Word(c.code.field, encoded[r]) {
      DividedKeeps(c.code, rows[r], c.DataLength(), c.code.parity);
    }
  }
}
