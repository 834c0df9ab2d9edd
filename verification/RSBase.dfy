/** The codec's tables and the arithmetic the encoder and the decoder share. */
module RSBaseModule {
  import opened Bits
  import opened Galois
  import opened Polynomial
  import opened Code
  import opened Decoding
  import opened DualBasis
  import opened Message
  import Forney

  class RSBase {
    const codec: Codec
    const gfExp: array<nat>
    const gfLog: array<nat>
    const talTab: array<nat>
    const talTabInv: array<nat>

    function Field(): GF { codec.code.field }

    ghost predicate Allocated()
      reads this
    {
      && gfExp.Length == 2 * Field().Size() && gfLog.Length == Field().Size()
      && talTab.Length == 256 && talTabInv.Length == 256
      && gfExp != gfLog && gfExp != talTab && gfExp != talTabInv && gfLog != talTab && gfLog != talTabInv && talTab != talTabInv
    }

    ghost predicate Tables()
      reads this, gfExp, gfLog
      requires Allocated()
    {
      && (forall i :: 0 <= i < gfExp.Length ==> gfExp[i] == Field().Pow(i))
      && gfLog[0] == Field().Order()
      && (forall x :: 0 < x < gfLog.Length ==> gfLog[x] == Field().Log(x))
    }

    ghost predicate DualTables()
      reads this, talTab, talTabInv
      requires Allocated()
    {
      forall n :: 0 <= n < 256 ==> talTab[n] == ToDual(n) && talTabInv[n] == FromDual(n)
    }

    /** The parameters are proper and the tables are those of the field. */
    ghost predicate Valid()
      reads this, gfExp, gfLog, talTab, talTabInv
    {
      codec.Proper() && Allocated() && Tables() && DualTables()
    }

    constructor (codec: Codec)
      requires codec.Proper()
      ensures Valid() && this.codec == codec
      ensures fresh(gfExp) && fresh(gfLog) && fresh(talTab) && fresh(talTabInv)
    {
      var size := codec.code.field.Size();
      this.codec := codec;
      gfExp := new nat[2 * size](i => 1);
      gfLog := new nat[size](i => 0);
      talTab := new nat[256](i => 0);
      talTabInv := new nat[256](i => 0);
      new;
      LoadPowers();
      LoadDualBasis();
    }

    /** Fill the exponential and logarithm tables by doubling. */
    method LoadPowers()
      requires codec.Proper() && Allocated()
      requires forall i :: 0 <= i < gfExp.Length ==> gfExp[i] == 1
      requires forall i :: 0 <= i < gfLog.Length ==> gfLog[i] == 0
      modifies gfExp, gfLog
      ensures Tables()
    {
      ProperPrimitive(codec.code);
      Field().OrderPositive();
      hide Params.Proper, GF.Primitive, GF.Pow, GF.Log;
      var F := Field();
      PowZero(F);
      FirstPowers();
      gfLog[0] := F.Size() - 1;
      RepeatPowers();
      forall y | 0 < y < F.Size() ensures gfLog[y] == F.Log(y) { F.LogPow(y); }
    }

    /** The powers below the order, and their logarithms. */
    method FirstPowers()
      requires Field().Primitive() && Allocated() && Field().Order() > 0
      requires forall i :: 0 <= i < gfExp.Length ==> gfExp[i] == 1
      requires forall i :: 0 <= i < gfLog.Length ==> gfLog[i] == 0
      modifies gfExp, gfLog
      ensures forall i :: 0 <= i <= Field().Order() ==> gfExp[i] == Field().Pow(i)
      ensures forall i :: 0 <= i < Field().Order() ==> 0 < Field().Pow(i) < gfLog.Length && gfLog[Field().Pow(i)] == i
    {
      var F := Field();
      var size := F.Size();
      F.OrderPositive();
      PowZero(F);
      hide GF.Primitive, GF.Pow, GF.Double, Xor;
      var x, i := 1, 1;
      while i < size - 1
        invariant 1 <= i && i <= size - 1
        invariant x == F.Pow(i - 1)
        invariant forall k :: 0 <= k < gfExp.Length ==> gfExp[k] == if k < i then F.Pow(k) else 1
        invariant forall k :: 0 <= k < i ==> 0 < F.Pow(k) < gfLog.Length && gfLog[F.Pow(k)] == k
      {
        DoublingStep(F, i, x);
        F.PowNonzero(i);
        forall k | 0 <= k < i ensures F.Pow(k) != F.Pow(i) { F.PowInjective(k, i); }
        x := 2 * x;
        if x >= size { x := Xor(x, F.poly); }
        gfExp[i] := x;
        gfLog[x] := i;
        i := i + 1;
      }
      F.PowMod(size - 1);
    }

    /** The second half of the exponential table repeats the first. */
    method RepeatPowers()
      requires Field().Primitive() && Allocated() && Field().Order() > 0
      requires forall i :: 0 <= i <= Field().Order() ==> gfExp[i] == Field().Pow(i)
      modifies gfExp
      ensures forall i :: 0 <= i < gfExp.Length ==> gfExp[i] == Field().Pow(i)
    {
      var F := Field();
      var size := F.Size();
      hide GF.Primitive, GF.Pow;
      var i := size;
      while i < 2 * size
        invariant size <= i <= 2 * size
        invariant forall k :: 0 <= k < i ==> gfExp[k] == F.Pow(k)
      {
        F.PowPeriod(i - (size - 1), 1);
        gfExp[i] := gfExp[i - (size - 1)];
        i := i + 1;
      }
    }

    /** Fill the dual-basis tables. */
    method LoadDualBasis()
      requires Allocated()
      modifies talTab, talTabInv
      ensures DualTables()
    {
      hide ToDual, FromDual;
      var i := 0;
      while i < 256
        invariant 0 <= i <= 256
        invariant forall n :: 0 <= n < i ==> talTab[n] == ToDual(n) && talTabInv[ToDual(n)] == n
      {
        var d := DualEntry(i);
        forall n | 0 <= n < i ensures ToDual(n) != d { Inverse(n); Inverse(i); }
        talTab[i] := d;
        talTabInv[d] := i;
        i := i + 1;
      }
      forall d | 0 <= d < 256 ensures talTabInv[d] == FromDual(d) {
        Inverse(d);
        assert talTabInv[ToDual(FromDual(d))] == FromDual(d);
      }
    }

    // -------------------------------------------------------------- field arithmetic

    /** The product from the tables is the product of the field. */
    function GfMul(x: nat, y: nat): (r: nat)
      requires Valid() && Field().InField(x) && Field().InField(y)
      reads this, gfExp, gfLog, talTab, talTabInv
      ensures r == Field().Mul(x, y)
    {
      if x == 0 || y == 0 then TableProduct(Field(), x, y); 0
      else
        TableProduct(Field(), x, y);
        gfExp[gfLog[x] + gfLog[y]]
    }

    /** The quotient from the tables; dividing by zero throws. */
    function GfDiv(x: nat, y: nat): (r: Outcome<nat>)
      requires Valid() && Field().InField(x) && Field().InField(y)
      reads this, gfExp, gfLog, talTab, talTabInv
      ensures if y == 0 then r == ValueTooSmall else r == Ok(Forney.Div(Field(), x, y))
    {
      if y == 0 then ValueTooSmall
      else if x == 0 then TableQuotient(Field(), x, y); Ok(0)
      else
        TableQuotient(Field(), x, y);
        Ok(gfExp[gfLog[x] + Field().Order() - gfLog[y]])
    }

    /** The e-th power of the primitive root, looked up at its exponent modulo the order. */
    function RootPower(e: nat): (r: nat)
      requires Valid()
      reads this, gfExp, gfLog, talTab, talTabInv
      ensures r == codec.code.RootPow(e) && r != 0 && codec.code.field.InField(r)
    {
      RootExponentInTable(codec.code, e);
      gfExp[(codec.code.root * e) % Field().Order()]
    }

    method GfPolyScale(p: seq<nat>, x: nat) returns (r: seq<nat>)
      requires Valid() && Word(Field(), p) && Field().InField(x)
      ensures r == Scale(Field(), p, x)
    {
      hide GF.Mul, Xor, Valid;
      r := Zeros(|p|);
      for i := 0 to |p|
        invariant |r| == |p|
        invariant forall k :: 0 <= k < i ==> r[k] == Field().Mul(p[k], x)
      {
        r := r[i := GfMul(p[i], x)];
      }
    }

    method GfPolyAdd(p: seq<nat>, q: seq<nat>) returns (r: seq<nat>)
      ensures r == Add(p, q)
    {
      hide Xor;
      var n := Longer(p, q);
      r := Zeros(n);
      for i := 0 to |p|
        invariant |r| == n
        invariant forall k :: 0 <= k < n ==> r[k] == if n - |p| <= k < n - |p| + i then p[k - (n - |p|)] else 0
      {
        r := r[i + n - |p| := p[i]];
      }
      for i := 0 to |q|
        invariant |r| == n
        invariant forall k :: 0 <= k < n ==>
          r[k] == if n - |q| <= k < n - |q| + i then Xor(PadAt(p, n, k), PadAt(q, n, k)) else PadAt(p, n, k)
      {
        r := r[i + n - |q| := Xor(r[i + n - |q|], q[i])];
      }
      forall k | 0 <= k < n ensures r[k] == Xor(PadAt(p, n, k), PadAt(q, n, k)) { XorZero(PadAt(p, n, k)); }
    }

    method GfPolyMul(p: seq<nat>, q: seq<nat>) returns (r: seq<nat>)
      requires Valid() && Word(Field(), p) && Word(Field(), q) && p != [] && q != []
      ensures r == Product(Field(), p, q)
    {
      hide GF.Mul, Xor, Valid;
      var F, n := Field(), |p| + |q| - 1;
      r := Zeros(n);
      assert r == PartialProduct(F, p, q, 0);
      hide Convolution;
      for j := 0 to |q|
        invariant r == PartialProduct(F, p, q, j)
      {
        for i := 0 to |p|
          invariant |r| == n
          invariant forall k: nat :: k < n ==> r[k] == Convolution(F, p, q, k, if j <= k < i + j then j + 1 else j)
        {
          ConvolutionTerm(F, p, q, i + j, j);
          r := r[i + j := Xor(r[i + j], GfMul(p[i], q[j]))];
        }
        forall k: nat | k < n ensures r[k] == Convolution(F, p, q, k, j + 1) { ConvolutionSkip(F, p, q, k, j); }
      }
    }

    method GfPolyEval(p: seq<nat>, x: nat) returns (y: nat)
      requires Valid() && Word(Field(), p) && p != [] && Field().InField(x)
      ensures y == Eval(Field(), p, x) && Field().InField(y)
    {
      hide GF.Mul, Xor, Valid, GF.Primitive;
      var F := Field();
      ValidPrimitive();
      y := p[0];
      ConstantValue(F, p[0], x);
      assert p[..1] == [p[0]];
      for i := 1 to |p|
        invariant y == Eval(F, p[..i], x) && F.InField(y)
      {
        assert p[..i + 1] == p[..i] + [p[i]];
        EvalAppend(F, p[..i], p[i], x);
        EvalInField(F, p[..i + 1], x);
        y := Xor(GfMul(y, x), p[i]);
      }
      assert p[..|p|] == p;
    }

    // -------------------------------------------------------------- messages

    /** Deal the message out from its end, so that missing symbols leave zeros in front. */
    method CcsdsInterleave(msg: seq<nat>, hasParity: bool) returns (rows: seq<seq<nat>>)
      requires Valid()
      requires |msg| <= (if hasParity then codec.code.length else codec.DataLength()) * codec.depth
      ensures rows == Interleaved(codec.depth, if hasParity then codec.code.length else codec.DataLength(), codec.code.length, msg)
    {
      ValidPrimitive();
      var depth, length := codec.depth, codec.code.length;
      var width := if hasParity then length else length - codec.code.parity;
      assert depth >= 1 && width <= length;
      hide Valid, Params.Proper, Interleaved, Dealt, Cursor;
      rows := seq(depth, r => Zeros(length));
      NothingDealt(depth, width, length, msg);
      var row, offset, pos := depth - 1, width - 1, |msg|;
      CursorStart(depth, width, |msg|);
      while pos > 0
        invariant 0 <= pos <= |msg| && 0 <= row < depth && offset < width
        invariant Cursor(depth, width, |msg|, pos, row, offset)
        invariant |rows| == depth && forall r :: 0 <= r < depth ==> |rows[r]| == length
        invariant Dealt(rows, depth, width, length, msg, pos)
      {
        CursorNext(depth, width, |msg|, pos, row, offset);
        pos := pos - 1;
        NextSymbol(rows, depth, width, length, msg, pos, row, offset);
        rows := rows[row := rows[row][offset := msg[pos]]];
        if row == 0 { row, offset := depth - 1, offset - 1; } else { row := row - 1; }
      }
      AllDealt(rows, depth, width, length, msg);
    }

    /** Collect the data symbols of the rows from the end; parity symbols are left off. */
    method CcsdsDeinterleave(rows: seq<seq<nat>>) returns (msg: seq<nat>)
      requires Valid() && |rows| == codec.depth
      requires forall r :: 0 <= r < |rows| ==> |rows[r]| == codec.code.length
      ensures msg == Columns(rows, 0, codec.DataLength())
    {
      ValidPrimitive();
      var depth, width := codec.depth, codec.DataLength();
      var total: nat := width * depth;
      hide Valid, Params.Proper, Cursor, Gathered;
      msg := Zeros(total);
      var row, offset, pos := depth - 1, width - 1, total;
      CursorStart(depth, width, total);
      while pos > 0
        invariant 0 <= pos <= total == |msg| && 0 <= row < depth && offset < width
        invariant Cursor(depth, width, total, pos, row, offset)
        invariant forall k :: pos <= k < total ==> msg[k] == Gathered(rows, k, 0)
      {
        CursorNext(depth, width, total, pos, row, offset);
        CursorSymbol(depth, width, pos, row, offset, rows);
        pos := pos - 1;
        msg := msg[pos := rows[row][offset]];
        if row == 0 { row, offset := depth - 1, offset - 1; } else { row := row - 1; }
      }
    }

    static function Stop(data: seq<nat>, start: nat, size: nat): (stop: nat)
      requires start + size <= |data|
      ensures start <= stop <= |data|
    {
      if size > 0 then start + size else |data|
    }

    /** Convert the symbols from `start` on: `size` of them, or with size 0 all. */
    method CcsdsDualBasisToConventional(data: seq<nat>, start: nat, size: nat) returns (converted: seq<nat>)
      requires Valid() && codec.dual && start + size <= |data|
      requires forall i :: start <= i < Stop(data, start, size) ==> data[i] < 256
      ensures |converted| == |data|
      ensures forall k :: 0 <= k < |data| ==> converted[k] == if start <= k < Stop(data, start, size) then FromDual(data[k]) else data[k]
      ensures start == 0 == size ==> converted == codec.Conventional(data)
    {
      hide FromDual, ToDual, Params.Proper;
      converted := data;
      for i := start to Stop(data, start, size)
        invariant |converted| == |data|
        invariant forall k :: 0 <= k < |data| ==> converted[k] == if start <= k < i then FromDual(data[k]) else data[k]
      {
        converted := converted[i := talTabInv[data[i]]];
      }
    }

    /** Convert the symbols from `start` on: `size` of them, or with size 0 all. */
    method CcsdsConventionalToDualBasis(data: seq<nat>, start: nat, size: nat) returns (converted: seq<nat>)
      requires Valid() && codec.dual && start + size <= |data|
      requires forall i :: start <= i < Stop(data, start, size) ==> data[i] < 256
      ensures |converted| == |data|
      ensures forall k :: 0 <= k < |data| ==> converted[k] == if start <= k < Stop(data, start, size) then ToDual(data[k]) else data[k]
      ensures start == 0 == size ==> converted == codec.Transmitted(data)
    {
      hide FromDual, ToDual, Params.Proper;
      converted := data;
      for i := start to Stop(data, start, size)
        invariant |converted| == |data|
        invariant forall k :: 0 <= k < |data| ==> converted[k] == if start <= k < i then ToDual(data[k]) else data[k]
      {
        converted := converted[i := talTab[data[i]]];
      }
    }

    lemma ValidPrimitive()
      requires Valid()
      ensures codec.Proper() && codec.code.Proper() && codec.depth >= 1 && Field() == codec.code.field
      ensures codec.code.field.Primitive() && codec.code.field.Order() > 0
      ensures codec.code.field.Size() == codec.code.field.Order() + 1
      ensures codec.code.parity < codec.code.length <= codec.code.field.Order()
      ensures codec.DataLength() == codec.code.length - codec.code.parity
    {
    }

    /** Entry i of the exponential table, for exponents that need no reduction. */
    lemma ExpEntry(i: nat)
      requires Valid() && i < 2 * codec.code.field.Size()
      ensures i < gfExp.Length && gfExp[i] == codec.code.field.Pow(i)
      ensures codec.code.field.InField(codec.code.field.Pow(i))
    {
      codec.code.field.PowNonzero(i);
    }
  }

  lemma TableProduct(F: GF, x: nat, y: nat)
    requires F.Primitive() && F.InField(x) && F.InField(y)
    ensures if x == 0 || y == 0 then F.Mul(x, y) == 0
      else F.Log(x) + F.Log(y) < 2 * F.Size() && F.Mul(x, y) == F.Pow(F.Log(x) + F.Log(y))
  {
    hide GF.Log, GF.Pow, GF.Primitive;
    F.SizeMod(x);
    F.SizeMod(y);
    F.MulZero(x);
    F.MulZero(y);
    if x != 0 { F.LogPow(x); }
    if y != 0 { F.LogPow(y); }
  }

  lemma RootExponentInTable(c: Params, e: nat)
    requires c.Proper()
    ensures c.field.Order() > 0 && (c.root * e) % c.field.Order() < 2 * c.field.Size()
    ensures c.field.Pow((c.root * e) % c.field.Order()) == c.RootPow(e) && c.RootPow(e) != 0 && c.field.InField(c.RootPow(e))
  {
    ProperPrimitive(c);
    hide GF.Pow, GF.Primitive, Params.Proper;
    c.field.PowMod(c.root * e);
    c.field.PowNonzero(c.root * e);
  }

  lemma TableQuotient(F: GF, x: nat, y: nat)
    requires F.Primitive() && F.InField(x) && F.InField(y) && y != 0
    ensures F.Log(y) < F.Order()
    ensures if x == 0 then Forney.Div(F, x, y) == 0
      else F.Log(x) < F.Order() && Forney.Div(F, x, y) == F.Pow(F.Log(x) + F.Order() - F.Log(y))
  {
    hide GF.Log, GF.Pow, GF.Primitive, GF.Mul, GF.Order;
    F.LogPow(y);
    F.MulZero(F.Inv(y));
    if x != 0 {
      F.LogPow(x);
      F.MulPow(F.Log(x), F.Order() - F.Log(y));
    }
  }

  /** The terms of a convolution outside the product's column are zero. */
  lemma ConvolutionSkip(F: GF, p: seq<nat>, q: seq<nat>, r: nat, j: nat)
    requires j < |q|
    ensures !(j <= r < j + |p|) ==> Convolution(F, p, q, r, j + 1) == Convolution(F, p, q, r, j)
  {
    hide GF.Mul, Xor;
    F.MulZero(q[j]);
    XorZero(Convolution(F, p, q, r, j));
  }

  lemma ConvolutionTerm(F: GF, p: seq<nat>, q: seq<nat>, r: nat, j: nat)
    requires j < |q| && j <= r < j + |p|
    ensures Convolution(F, p, q, r, j + 1) == Xor(Convolution(F, p, q, r, j), F.Mul(p[r - j], q[j]))
  {
    hide GF.Mul, Xor;
  }

  lemma ConstantValue(F: GF, c: nat, x: nat)
    ensures Eval(F, [c], x) == c
  {
    hide GF.Mul, Xor;
    assert [c][..0] == [];
    F.MulZero(x);
    XorZero(c);
  }

  /** The symbols of the message from index pos on have been dealt out, and nothing else. */
  ghost predicate Dealt(rows: seq<seq<nat>>, depth: nat, width: nat, length: nat, msg: seq<nat>, pos: nat)
    requires pos <= |msg|
  {
    && |rows| == depth && (forall r :: 0 <= r < depth ==> |rows[r]| == length)
    && forall r: nat, o: nat :: r < depth && o < length ==> rows[r][o] == DealtSymbol(depth, width, msg, pos, r, o)
  }

  function DealtSymbol(depth: nat, width: nat, msg: seq<nat>, pos: nat, r: nat, o: nat): nat
    requires pos <= |msg|
  {
    var k, fill := o * depth + r, width * depth - |msg|;
    if fill + pos <= k < width * depth then msg[k - fill] else 0
  }

  /** Row and offset of the symbol before index pos of n symbols that end with the last column. */
  predicate Cursor(depth: nat, width: nat, n: nat, pos: nat, row: nat, offset: int) {
    offset * depth + row == width * depth - n + pos - 1
  }

  lemma CursorStart(depth: nat, width: nat, n: nat)
    requires depth >= 1
    ensures Cursor(depth, width, n, n, depth - 1, width - 1)
  {
    assert (width - 1) * depth + (depth - 1) == width * depth - 1;
  }

  lemma CursorNext(depth: nat, width: nat, n: nat, pos: nat, row: nat, offset: int)
    requires row < depth && 1 <= pos <= n <= width * depth && Cursor(depth, width, n, pos, row, offset)
    ensures offset >= 0
    ensures if row == 0 then Cursor(depth, width, n, pos - 1, depth - 1, offset - 1)
      else Cursor(depth, width, n, pos - 1, row - 1, offset)
  {
    OffsetNonnegative(offset, depth, row);
    assert (offset - 1) * depth + (depth - 1) == offset * depth - 1;
  }

  lemma CursorSymbol(depth: nat, width: nat, pos: nat, row: nat, offset: nat, rows: seq<seq<nat>>)
    requires row < depth == |rows| && pos >= 1 && Cursor(depth, width, width * depth, pos, row, offset)
    requires offset < |rows[row]|
    ensures Gathered(rows, pos - 1, 0) == rows[row][offset]
  {
    FlatSplit(offset, depth, row);
  }

  lemma OffsetNonnegative(offset: int, depth: nat, row: nat)
    requires row < depth && offset * depth + row >= 0
    ensures offset >= 0
  {
    if offset < 0 { MulMonotone(depth, 1, -offset); }
  }

  /** Dealing one more symbol changes just the place it goes to. */
  lemma DealtStep(depth: nat, width: nat, msg: seq<nat>, pos: nat, row: nat, offset: nat, r: nat, o: nat)
    requires pos < |msg| <= width * depth && row < depth && r < depth
    requires offset * depth + row == width * depth - |msg| + pos
    ensures DealtSymbol(depth, width, msg, pos, r, o)
         == if r == row && o == offset then msg[pos] else DealtSymbol(depth, width, msg, pos + 1, r, o)
  {
    FlatSplit(o, depth, r);
    FlatSplit(offset, depth, row);
  }

  lemma NextSymbol(rows: seq<seq<nat>>, depth: nat, width: nat, length: nat, msg: seq<nat>, pos: nat, row: nat, offset: nat)
    requires |msg| <= width * depth && pos < |msg| && row < depth && offset < width <= length
    requires Cursor(depth, width, |msg|, pos + 1, row, offset) && Dealt(rows, depth, width, length, msg, pos + 1)
    ensures Dealt(rows[row := rows[row][offset := msg[pos]]], depth, width, length, msg, pos)
  {
    hide DealtSymbol;
    var next := rows[row := rows[row][offset := msg[pos]]];
    forall r: nat, o: nat | r < depth && o < length
      ensures next[r][o] == DealtSymbol(depth, width, msg, pos, r, o)
    {
      DealtStep(depth, width, msg, pos, row, offset, r, o);
    }
  }

  lemma NothingDealt(depth: nat, width: nat, length: nat, msg: seq<nat>)
    requires |msg| <= width * depth
    ensures Dealt(seq(depth, r => Zeros(length)), depth, width, length, msg, |msg|)
  {
  }

  lemma AllDealt(rows: seq<seq<nat>>, depth: nat, width: nat, length: nat, msg: seq<nat>)
    requires Dealt(rows, depth, width, length, msg, 0)
    ensures rows == Interleaved(depth, width, length, msg)
  {
    var all := Interleaved(depth, width, length, msg);
    forall r: nat | r < depth ensures rows[r] == all[r] {
      forall o: nat | o < length ensures rows[r][o] == all[r][o] {
        assert rows[r][o] == DealtSymbol(depth, width, msg, 0, r, o);
      }
    }
  }

  /** One pass of the table loop computes the next power. */
  lemma DoublingStep(F: GF, i: nat, x: nat)
    requires i >= 1 && x == F.Pow(i - 1)
    ensures F.Pow(i) == if 2 * x >= F.Size() then Xor(2 * x, F.poly) else 2 * x
  {
    hide Xor;
  }
}
