/** What the operations of SipHash mean, said without their formulas, and that a round can be undone. */
module SiphashLaws {
  import opened Siphash

  // ---------- rotations: what leaves above comes in below, and nothing is lost ----------

  lemma RotatesBy13(x: bv64)
    ensures Rotl(x, 13) & 0x1fff == x >> 51 && Rotl(x, 13) >> 13 == x & 0x7ffffffffffff
  {
  }

  lemma ReturnsFrom13(x: bv64)
    ensures Rotl(Rotl(x, 13), 51) == x && Rotl(Rotl(x, 51), 13) == x
  {
  }

  lemma RotatesBy16(x: bv64)
    ensures Rotl(x, 16) & 0xffff == x >> 48 && Rotl(x, 16) >> 16 == x & 0xffffffffffff
  {
  }

  lemma ReturnsFrom16(x: bv64)
    ensures Rotl(Rotl(x, 16), 48) == x && Rotl(Rotl(x, 48), 16) == x
  {
  }

  lemma RotatesBy17(x: bv64)
    ensures Rotl(x, 17) & 0x1ffff == x >> 47 && Rotl(x, 17) >> 17 == x & 0x7fffffffffff
  {
  }

  lemma ReturnsFrom17(x: bv64)
    ensures Rotl(Rotl(x, 17), 47) == x && Rotl(Rotl(x, 47), 17) == x
  {
  }

  lemma RotatesBy21(x: bv64)
    ensures Rotl(x, 21) & 0x1fffff == x >> 43 && Rotl(x, 21) >> 21 == x & 0x7ffffffffff
  {
  }

  lemma ReturnsFrom21(x: bv64)
    ensures Rotl(Rotl(x, 21), 43) == x && Rotl(Rotl(x, 43), 21) == x
  {
  }

  lemma RotatesBy32(x: bv64)
    ensures Rotl(x, 32) & 0xffffffff == x >> 32 && Rotl(x, 32) >> 32 == x & 0xffffffff
  {
  }

  lemma ReturnsFrom32(x: bv64)
    ensures Rotl(Rotl(x, 32), 32) == x && Rotl(Rotl(x, 32), 32) == x
  {
  }

  // ---------- the other operations ----------

  /** Addition is modulo 2^64. */
  lemma AddIsModular(x: bv64, y: bv64)
    ensures Add(x, y) as bv65 == ((x as bv65) + (y as bv65)) & 0xffff_ffff_ffff_ffff
  {
  }

  /** The bits that are in one of the two and not in both. */
  lemma XorIsExclusive(x: bv64, y: bv64)
    ensures Xor(x, y) == (x | y) & !(x & y)
  {
  }

  lemma XorReturns(x: bv64, y: bv64)
    ensures Xor(Xor(x, y), y) == x
  {
  }

  function Sub(x: bv64, y: bv64): bv64 { x - y }

  lemma AddReturns(x: bv64, y: bv64)
    ensures Sub(Add(x, y), y) == x && Add(Sub(x, y), y) == x
  {
    hide *;
    Formulas(x, y);
    SumLessTerm(x, y);
    DifferencePlusTerm(x, y);
  }

  lemma Formulas(x: bv64, y: bv64)
    ensures Add(x, y) == x + y && Sub(x, y) == x - y
  {
  }

  lemma SumLessTerm(x: bv64, y: bv64)
    ensures Sub(x + y, y) == x
  {
  }

  lemma DifferencePlusTerm(x: bv64, y: bv64)
    ensures Add(x - y, y) == x
  {
  }

  // ---------- a round backwards ----------

  function UndoRound(s: State): State {
    var w2 := Rotl(s.v2, 32);
    var v3 := Rotl(Xor(s.v3, s.v0), 43);
    var v1 := Rotl(Xor(s.v1, w2), 47);
    var v2 := Sub(w2, v1);
    var v0 := Rotl(Sub(s.v0, v3), 32);
    var u1, u3 := Rotl(Xor(v1, v0), 51), Rotl(Xor(v3, v2), 48);
    State(Sub(v0, u1), u1, Sub(v2, u3), u3)
  }

  lemma UndoneAfter(s: State)
    ensures UndoRound(SipRound(s)) == s
  {
    hide Add, Sub, Xor, Rotl;
    var v0, v2 := Add(s.v0, s.v1), Add(s.v2, s.v3);
    var r1, r3 := Rotl(s.v1, 13), Rotl(s.v3, 16);
    var v1, v3 := Xor(r1, v0), Xor(r3, v2);
    var r0 := Rotl(v0, 32);
    var w0, w2 := Add(r0, v3), Add(v2, v1);
    ReturnsFrom13(s.v1);
    ReturnsFrom16(s.v3);
    ReturnsFrom32(v0);
    ReturnsFrom17(v1);
    ReturnsFrom21(v3);
    ReturnsFrom32(w2);
    AddReturns(s.v0, s.v1);
    AddReturns(s.v2, s.v3);
    AddReturns(r0, v3);
    AddReturns(v2, v1);
    XorReturns(r1, v0);
    XorReturns(r3, v2);
    XorReturns(Rotl(v1, 17), w2);
    XorReturns(Rotl(v3, 21), w0);
  }

  lemma DoneAfterUndo(s: State)
    ensures SipRound(UndoRound(s)) == s
  {
    hide Add, Sub, Xor, Rotl;
    var w2 := Rotl(s.v2, 32);
    var x3, x1 := Xor(s.v3, s.v0), Xor(s.v1, w2);
    var v3, v1 := Rotl(x3, 43), Rotl(x1, 47);
    var v2, y0 := Sub(w2, v1), Sub(s.v0, v3);
    var v0 := Rotl(y0, 32);
    var y1, y3 := Xor(v1, v0), Xor(v3, v2);
    ReturnsFrom32(s.v2);
    ReturnsFrom21(x3);
    ReturnsFrom17(x1);
    ReturnsFrom32(y0);
    ReturnsFrom13(y1);
    ReturnsFrom16(y3);
    XorReturns(s.v3, s.v0);
    XorReturns(s.v1, w2);
    XorReturns(v1, v0);
    XorReturns(v3, v2);
    AddReturns(w2, v1);
    AddReturns(s.v0, v3);
    AddReturns(v0, Rotl(y1, 51));
    AddReturns(v2, Rotl(y3, 48));
  }

  /** A round permutes the states: none is reached from two, and every one is reached. */
  lemma RoundPermutes(s: State, t: State)
    ensures SipRound(s) == SipRound(t) <==> s == t
    ensures SipRound(UndoRound(s)) == s
  {
    hide SipRound, UndoRound;
    UndoneAfter(s);
    UndoneAfter(t);
    DoneAfterUndo(s);
  }
}
