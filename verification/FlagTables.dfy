/** What each instruction does to the flags: the three tables of flags.c. */
module FlagTables {
  datatype Flag = CF | OF | SF | ZF | PF | AF | DF | NT

  /** The mnemonics that occur in a table; any other has no effect on the flags. */
  datatype Mnemonic =
    | Aaa | Aad | Aam | Aas | Adc | Add | And | Bsf | Bsr | Bt | Btc | Btr | Bts | Cmova | Cmovbe
    | Cmovc | Cmovg | Cmovge | Cmovl | Cmovle | Cmovnc | Cmovno | Cmovnp | Cmovns | Cmovnz | Cmovo
    | Cmovp | Cmovs | Cmovz | Cmp | Cmps | Cmpxchg | Daa | Das | Dec | Div | Fcmovb | Fcmovbe
    | Fcmove | Fcmovnb | Fcmovnbe | Fcmovne | Fcmovnu | Fcmovu | Fcomi | Fcomip | Fucomi | Fucomip
    | Idiv | Imul | Inc | Ins | Into | Iret | Ja | Jbe | Jc | Jg | Jge | Jl | Jle | Jnc | Jno | Jnp
    | Jns | Jnz | Jo | Jp | Js | Jz | Lahf | Lods | Loopnz | Loopz | Lsl | Movs | Movsx | Movzx
    | Mul | Neg | Or | Outs | Popf | Pushf | Rcl | Rcr | Rol | Ror | Sahf | Sar | Sbb | Scas | Seta
    | Setbe | Setc | Setg | Setge | Setl | Setle | Setnc | Setno | Setnp | Setns | Setnz | Seto
    | Setp | Sets | Setz | Shl | Shld | Shr | Shrd | SseComisd | SseComiss | Stos | Sub | Test | Xor
    | Other

  /** The flags that start out undefined in the first pass; DF is not among them. */
  const STATUS: set<Flag> := {CF, OF, SF, ZF, PF, AF}

  /** Flags read by an instruction. */
  function Read(m: Mnemonic): set<Flag> {
    match m
    case Aaa | Aas => {AF}
    case Adc | Cmovc | Cmovnc | Fcmovb | Fcmovnb | Jc | Jnc | Rcl | Rcr | Sbb | Setc | Setnc => {CF}
    case Cmova | Cmovbe | Fcmovbe | Fcmovnbe | Ja | Jbe | Seta | Setbe => {CF, ZF}
    case Cmovg | Cmovle | Jg | Jle | Setg | Setle => {OF, SF, ZF}
    case Cmovge | Cmovl | Jge | Jl | Setge | Setl => {OF, SF}
    case Cmovno | Cmovo | Into | Jno | Jo | Setno | Seto => {OF}
    case Cmovnp | Cmovp | Fcmovnu | Fcmovu | Jnp | Jp | Setnp | Setp => {PF}
    case Cmovns | Cmovs | Jns | Js | Setns | Sets => {SF}
    case Cmovnz | Cmovz | Fcmove | Fcmovne | Jnz | Jz | Loopnz | Loopz | Setnz | Setz => {ZF}
    case Cmps | Ins | Lods | Movs | Movsx | Movzx | Outs | Scas | Stos => {DF}
    case Daa | Das => {CF, AF}
    case Iret => {NT}
    case Lahf | Pushf => {CF, OF, SF, ZF, PF, AF, DF}
    case _ => {}
  }

  /** Flags that are defined afterwards. */
  function Modify(m: Mnemonic): set<Flag> {
    match m
    case Add | Cmp | Fcomi | Fcomip | Fucomi | Fucomip | Neg | SseComisd | SseComiss | Sub =>
      {CF, OF, SF, ZF, PF, AF}
    case And | Or | Test | Xor => {CF, OF, SF, ZF, PF}
    case Bt | Btc | Btr | Bts => {CF}
    case Cmpxchg | Lsl => {ZF}
    case Dec | Inc => {OF, SF, ZF, PF, AF}
    case Imul => {CF, OF}
    case Sar | Shl | Shr => {CF, SF, ZF, PF}
    case _ => {}
  }

  /** Flags that are undefined afterwards. */
  function Undef(m: Mnemonic): set<Flag> {
    match m
    case Aaa | Aas => {OF, SF, ZF, PF}
    case Aad | Aam => {CF, OF, AF}
    case And | Or | Test | Xor => {AF}
    case Bsf | Bsr => {CF, OF, SF, PF, AF}
    case Bt | Btc | Btr | Bts => {OF, SF, PF, AF}
    case Div | Idiv => {CF, OF, SF, ZF, PF, AF}
    case Imul | Mul => {SF, ZF, PF, AF}
    case Popf => {CF, OF, SF, ZF, PF, AF, DF}
    case Rcl | Rcr | Rol | Ror => {OF}
    case Sahf => {CF, SF, ZF, PF, AF, DF}
    case Sar | Shl | Shld | Shr | Shrd => {OF, AF}
    case _ => {}
  }

  /** The assertion in the analysis never fires: no instruction both defines a flag and leaves it
      undefined. */
  lemma {:induction false} TablesAgree(m: Mnemonic)
    ensures Undef(m) !! Modify(m)
  {
  }
}
