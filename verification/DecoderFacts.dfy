/** The decoder is self-delimiting, with a length bound. */
module DecoderFacts {
  import opened Words
  import opened Memory
  import opened Machine
  import opened X86
  import opened DecoderSpec

  /** s and t have the same first n bytes. */
  predicate Agree(s: seq<Byte>, t: seq<Byte>, n: nat) {
    n <= |s| && n <= |t| && s[..n] == t[..n]
  }

  lemma {:induction false} FetchFacts(s: seq<Byte>, t: seq<Byte>, cur: Cursor, w: Width)
    ensures
      var r := Fetch(s, cur, w);
      && r.v < Span(w)
      && cur.k <= r.cur.k <= cur.k + w
      && (cur.k <= |s| ==> r.cur.k <= |s|)
      && (cur.k + w <= |s| ==> r.cur.k == cur.k + w)
      && (r.cur.clean ==> cur.clean && r.cur.k == cur.k + w)
      && (r.cur.clean && Agree(s, t, r.cur.k) ==> Fetch(t, cur, w) == r)
  {
    var r := Fetch(s, cur, w);
    if cur.k + w <= |s| {
      SpanIsPow256(w);
    }
    if r.cur.clean && Agree(s, t, r.cur.k) {
      assert s[..r.cur.k][cur.k..cur.k + w] == s[cur.k..cur.k + w];
      assert t[..r.cur.k][cur.k..cur.k + w] == t[cur.k..cur.k + w];
    }
  }

  lemma {:induction false} AgreeLess(s: seq<Byte>, t: seq<Byte>, n: nat, m: nat)
    requires Agree(s, t, n) && m <= n
    ensures Agree(s, t, m) && forall i :: 0 <= i < m ==> s[i] == t[i]
  {
    assert s[..n][..m] == s[..m] && t[..n][..m] == t[..m];
    assert forall i :: 0 <= i < m ==> s[i] == s[..m][i] && t[i] == t[..m][i];
  }

  /** Parsing an operand takes at most five bytes beyond the ModR/M byte, and
      depends on no others. */
  lemma {:induction false} ParseFacts(op: Operand, rex: Byte, modrm: Byte, s: seq<Byte>, t: seq<Byte>, cur: Cursor)
    ensures
      var r := ParseModrm(op, rex, modrm, s, cur);
      && cur.k <= r.cur.k <= cur.k + 5
      && (cur.k <= |s| ==> r.cur.k <= |s|)
      && (r.cur.clean ==> cur.clean)
      && (r.cur.clean && Agree(s, t, r.cur.k) ==> ParseModrm(op, rex, modrm, t, cur) == r)
  {
    hide Fetch, DecodeReg, ScaleFrom, Signed, Agree, ParseSib, ParseDisp;
    var mod, rm := modrm / 64, modrm % 8;
    var r := ParseModrm(op, rex, modrm, s, cur);
    var op1 := op.(base := DecodeReg(rm, rex, true));
    if mod == 3 {
    } else if rm == 4 {
      var sibOp := op1.(disp := 0, hasSib := true);
      var p := ParseSib(sibOp, rex, mod, s, cur);
      SibFacts(sibOp, rex, mod, s, t, cur);
      if cur.k + 1 <= |s| && mod != 0 {
        DispFacts(p.op, mod, s, t, p.cur);
      }
      if r.cur.clean && Agree(s, t, r.cur.k) {
        AgreeLess(s, t, r.cur.k, p.cur.k);
        AgreeSize(s, t, r.cur.k);
      }
    } else if rm == 5 && mod == 0 {
      FetchFacts(s, t, cur, 4);
    } else if mod != 0 {
      DispFacts(op1, mod, s, t, cur);
    }
  }

  lemma {:induction false} AgreeSize(s: seq<Byte>, t: seq<Byte>, n: nat)
    requires Agree(s, t, n)
    ensures n <= |s| && n <= |t|
  {
  }

  lemma {:induction false} DispFacts(op: Operand, mod: Byte, s: seq<Byte>, t: seq<Byte>, cur: Cursor)
    ensures
      var r := ParseDisp(op, mod, s, cur);
      && cur.k <= r.cur.k <= cur.k + 4
      && (cur.k <= |s| ==> r.cur.k <= |s|)
      && (r.cur.clean ==> cur.clean)
      && (r.cur.clean && Agree(s, t, r.cur.k) ==> ParseDisp(op, mod, t, cur) == r)
  {
    hide Fetch;
    FetchFacts(s, t, cur, if mod == 1 then 1 else 4);
  }

  lemma {:induction false} SibFacts(op: Operand, rex: Byte, mod: Byte, s: seq<Byte>, t: seq<Byte>, cur: Cursor)
    ensures
      var r := ParseSib(op, rex, mod, s, cur);
      && cur.k <= r.cur.k <= cur.k + (if mod == 0 then 5 else 1)
      && (cur.k <= |s| ==> r.cur.k <= |s|)
      && (r.cur.clean ==> cur.clean && cur.k + 1 <= |s|)
      && (cur.k + 1 <= |s| ==> cur.k + 1 <= r.cur.k)
      && (r.cur.clean && Agree(s, t, r.cur.k) ==> ParseSib(op, rex, mod, t, cur) == r)
  {
    hide Fetch, DecodeReg, ScaleFrom, Signed;
    var r := ParseSib(op, rex, mod, s, cur);
    FetchFacts(s, t, Cursor(cur.k + 1, cur.clean), 4);
    if r.cur.clean && Agree(s, t, r.cur.k) {
      AgreeLess(s, t, r.cur.k, cur.k + 1);
    }
  }

  /** What every decoding function promises from a cursor with `from` bytes
      consumed: at most `most` bytes in all, and nothing beyond them matters. */
  ghost predicate Delimited(d: Decoded, d': Decoded, s: seq<Byte>, t: seq<Byte>, from: nat, most: nat) {
    match d
    case Fail(used, skip) => used <= |s| && skip <= used
    case Done(insn, clean) =>
      && from <= insn.size <= most && insn.size <= |s|
      && (clean && Agree(s, t, insn.size) ==> d' == d)
  }

  lemma {:induction false} RmDelimited(x: Context, t: seq<Byte>, f: Form, cur: Cursor)
    requires f.Form? && cur.k <= |x.s|
    ensures Delimited(DecodeRm(x, f, cur), DecodeRm(x.(s := t), f, cur), x.s, t, cur.k, cur.k + 6)
    ensures DecodeRm(x, f, cur).Done? && DecodeRm(x, f, cur).clean ==> cur.clean
  {
    hide ParseModrm, DecodeReg;
    if cur.k < |x.s| {
      var modrm := x.s[cur.k];
      var op := if f.regIsSrc then FormInsn(x, f).dst else FormInsn(x, f).src;
      var cur1 := Cursor(cur.k + 1, cur.clean);
      ParseFacts(op, x.rex, modrm, x.s, t, cur1);
      var p := ParseModrm(op, x.rex, modrm, x.s, cur1);
      if p.cur.clean && Agree(x.s, t, p.cur.k) {
        AgreeLess(x.s, t, p.cur.k, cur.k + 1);
      }
    }
  }

  lemma {:induction false} GroupDelimited(x: Context, t: seq<Byte>, b0: Byte, cur: Cursor)
    requires (b0 == 0x83 || b0 == 0x81) && cur.k <= |x.s|
    ensures Delimited(DecodeGroup(x, b0, cur), DecodeGroup(x.(s := t), b0, cur), x.s, t, cur.k, cur.k + 10)
    ensures DecodeGroup(x, b0, cur).Done? && DecodeGroup(x, b0, cur).clean ==> cur.clean
  {
    hide ParseModrm, Fetch, GroupOp, Signed;
    if cur.k < |x.s| {
      var modrm := x.s[cur.k];
      var op := MemOperand(if b0 == 0x83 then 8 else 4);
      ImmDelimited(x.s, t, op, x.rex, cur, if b0 == 0x83 then 1 else 4);
    }
  }

  /** ModR/M, operand and immediate in a row. */
  lemma {:induction false} ImmDelimited(s: seq<Byte>, t: seq<Byte>, op: Operand, rex: Byte, cur: Cursor, w: Width)
    requires cur.k < |s|
    ensures
      var cur1 := Cursor(cur.k + 1, cur.clean);
      var p := ParseModrm(op, rex, s[cur.k], s, cur1);
      var f := Fetch(s, p.cur, w);
      && cur.k < p.cur.k <= f.cur.k <= cur.k + 6 + w && f.cur.k <= |s| && f.v < Span(w) && p.cur.k <= cur.k + 6
      && (f.cur.clean ==> p.cur.clean) && (p.cur.clean ==> cur.clean)
      && (f.cur.clean && Agree(s, t, f.cur.k) ==>
            && cur.k < |t| && t[cur.k] == s[cur.k] && ParseModrm(op, rex, t[cur.k], t, cur1) == p
            && Fetch(t, p.cur, w) == f)
      && (p.cur.clean && Agree(s, t, p.cur.k) ==>
            cur.k < |t| && t[cur.k] == s[cur.k] && ParseModrm(op, rex, t[cur.k], t, cur1) == p)
  {
    hide ParseModrm, Fetch;
    var cur1 := Cursor(cur.k + 1, cur.clean);
    ParseFacts(op, rex, s[cur.k], s, t, cur1);
    var p := ParseModrm(op, rex, s[cur.k], s, cur1);
    FetchFacts(s, t, p.cur, w);
    var f := Fetch(s, p.cur, w);
    if f.cur.clean && Agree(s, t, f.cur.k) {
      AgreeLess(s, t, f.cur.k, p.cur.k);
      AgreeLess(s, t, f.cur.k, cur.k + 1);
    }
    if p.cur.clean && Agree(s, t, p.cur.k) {
      AgreeLess(s, t, p.cur.k, cur.k + 1);
    }
  }

  lemma {:induction false} MovImmDelimited(x: Context, t: seq<Byte>, b0: Byte, cur: Cursor)
    requires (b0 == 0xC7 || b0 == 0xC6) && cur.k <= |x.s|
    ensures Delimited(DecodeMovImm(x, b0, cur), DecodeMovImm(x.(s := t), b0, cur), x.s, t, cur.k, cur.k + 10)
    ensures DecodeMovImm(x, b0, cur).Done? && DecodeMovImm(x, b0, cur).clean ==> cur.clean
  {
    hide ParseModrm, Fetch, Signed;
    if cur.k < |x.s| {
      ImmDelimited(x.s, t, MemOperand(if b0 == 0xC7 then 8 else 1), x.rex, cur, if b0 == 0xC7 then 4 else 1);
    }
  }

  lemma {:induction false} ShiftDelimited(x: Context, t: seq<Byte>, b0: Byte, cur: Cursor)
    requires (b0 == 0xC1 || b0 == 0xD1) && cur.k <= |x.s|
    ensures Delimited(DecodeShift(x, b0, cur), DecodeShift(x.(s := t), b0, cur), x.s, t, cur.k, cur.k + 7)
    ensures DecodeShift(x, b0, cur).Done? && DecodeShift(x, b0, cur).clean ==> cur.clean
  {
    hide ParseModrm, Fetch, Signed, ShiftOp;
    if cur.k < |x.s| {
      ImmDelimited(x.s, t, MemOperand(8), x.rex, cur, 1);
    }
  }

  lemma {:induction false} IncDecDelimited(x: Context, t: seq<Byte>, cur: Cursor)
    requires cur.k <= |x.s|
    ensures Delimited(DecodeIncDec(x, cur), DecodeIncDec(x.(s := t), cur), x.s, t, cur.k, cur.k + 6)
    ensures DecodeIncDec(x, cur).Done? && DecodeIncDec(x, cur).clean ==> cur.clean
  {
    hide ParseModrm, Fetch;
    if cur.k < |x.s| {
      ImmDelimited(x.s, t, MemOperand(8), x.rex, cur, 1);
    }
  }

  lemma {:induction false} Decode0fDelimited(x: Context, t: seq<Byte>, cur: Cursor)
    requires cur.k <= |x.s|
    ensures Delimited(Decode0f(x, cur), Decode0f(x.(s := t), cur), x.s, t, cur.k, cur.k + 7)
    ensures Decode0f(x, cur).Done? && Decode0f(x, cur).clean ==> cur.clean
  {
    hide ParseModrm, Fetch, RmForm0f, DecodeRm, Signed;
    FetchFacts(x.s, t, cur, 1);
    var f := Fetch(x.s, cur, 1);
    FetchFacts(x.s, t, f.cur, 4);
    if RmForm0f(f.v, x.rex).Form? {
      RmDelimited(x, t, RmForm0f(f.v, x.rex), f.cur);
    }
    var d := Decode0f(x, cur);
    if d.Done? && d.clean && Agree(x.s, t, d.insn.size) {
      AgreeLess(x.s, t, d.insn.size, f.cur.k);
    }
  }

  lemma {:induction false} OpDelimited(x: Context, t: seq<Byte>, b0: Byte, cur: Cursor)
    requires cur.k <= |x.s|
    ensures Delimited(DecodeOp(x, b0, cur), DecodeOp(x.(s := t), b0, cur), x.s, t, cur.k, cur.k + 10)
    ensures DecodeOp(x, b0, cur).Done? && DecodeOp(x, b0, cur).clean ==> cur.clean
  {
    hide ParseModrm, Fetch, RmForm, DecodeRm, DecodeGroup, DecodeMovImm, DecodeShift, DecodeIncDec, Decode0f,
        Signed, DecodeReg;
    if b0 == 0x0F {
      Decode0fDelimited(x, t, cur);
    } else if 0xB8 <= b0 <= 0xBF {
      FetchFacts(x.s, t, cur, 4);
      FetchFacts(x.s, t, cur, 8);
    } else if b0 == 0xEB || b0 == 0xE9 || b0 == 0xE8 || 0x70 <= b0 <= 0x7F {
      FetchFacts(x.s, t, cur, 1);
      FetchFacts(x.s, t, cur, 4);
    } else if b0 == 0x83 || b0 == 0x81 {
      GroupDelimited(x, t, b0, cur);
    } else if b0 == 0xC7 || b0 == 0xC6 {
      MovImmDelimited(x, t, b0, cur);
    } else if b0 == 0xC1 || b0 == 0xD1 {
      ShiftDelimited(x, t, b0, cur);
    } else if b0 == 0xFF {
      IncDecDelimited(x, t, cur);
    } else if x.inRex && RexW(x.rex) && (b0 == 0x05 || b0 == 0x3D) {
      FetchFacts(x.s, t, cur, 4);
    } else if RmForm(b0, x.inRex).Form? {
      RmDelimited(x, t, RmForm(b0, x.inRex), cur);
    }
  }

  /** A successful decode takes between 1 and 12 bytes, all inside the buffer;
      and if no fetch ran past the end, any buffer that agrees on those bytes
      decodes to the same instruction. */
  lemma {:induction false} SelfDelimiting(s: seq<Byte>, t: seq<Byte>, pc: Word)
    ensures Decode(s, pc).Fail? ==> Decode(s, pc).skip <= Decode(s, pc).used <= |s|
    ensures Decode(s, pc).Done? ==> 1 <= Decode(s, pc).insn.size <= 12 && Decode(s, pc).insn.size <= |s|
    ensures Decode(s, pc).Done? && Decode(s, pc).clean && Agree(s, t, Decode(s, pc).insn.size) ==>
              Decode(t, pc) == Decode(s, pc)
  {
    hide DecodeOp, Fetch;
    if s != [] {
      var inRex := s[0] / 16 == 4;
      var x := Context(s, pc, if inRex then s[0] else 0, inRex);
      var cur0 := Cursor(if inRex then 1 else 0, true);
      var f := Fetch(s, cur0, 1);
      FetchFacts(s, t, cur0, 1);
      OpDelimited(x, t, f.v, f.cur);
      var d := Decode(s, pc);
      if d.Done? && d.clean && Agree(s, t, d.insn.size) {
        AgreeLess(s, t, d.insn.size, f.cur.k);
        assert t[0] == s[0];
      }
    }
  }
}
