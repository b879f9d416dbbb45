/** The three tables of flags.c, turned by a quarter: for each flag, the instructions that read it, those that
    define it, and those that leave it undefined. */
module FlagColumns {
  import opened FlagTables

  predicate ReadsCf(m: Mnemonic) {
    match m
    case
      Adc | Cmova | Cmovbe | Cmovc | Cmovnc | Daa | Das | Fcmovb | Fcmovbe | Fcmovnb | Fcmovnbe | Ja | Jbe | Jc
      | Jnc | Lahf | Pushf | Rcl | Rcr | Sbb | Seta | Setbe | Setc | Setnc => true
    case _ => false
  }

  predicate ReadsOf(m: Mnemonic) {
    match m
    case
      Cmovg | Cmovge | Cmovl | Cmovle | Cmovno | Cmovo | Into | Jg | Jge | Jl | Jle | Jno | Jo | Lahf | Pushf |
      Setg | Setge | Setl | Setle | Setno | Seto => true
    case _ => false
  }

  predicate ReadsSf(m: Mnemonic) {
    match m
    case
      Cmovg | Cmovge | Cmovl | Cmovle | Cmovns | Cmovs | Jg | Jge | Jl | Jle | Jns | Js | Lahf | Pushf | Setg |
      Setge | Setl | Setle | Setns | Sets => true
    case _ => false
  }

  predicate ReadsZf(m: Mnemonic) {
    match m
    case
      Cmova | Cmovbe | Cmovg | Cmovle | Cmovnz | Cmovz | Fcmovbe | Fcmove | Fcmovnbe | Fcmovne | Ja | Jbe | Jg |
      Jle | Jnz | Jz | Lahf | Loopnz | Loopz | Pushf | Seta | Setbe | Setg | Setle | Setnz | Setz => true
    case _ => false
  }

  predicate ReadsPf(m: Mnemonic) {
    match m
    case
      Cmovnp | Cmovp | Fcmovnu | Fcmovu | Jnp | Jp | Lahf | Pushf | Setnp | Setp => true
    case _ => false
  }

  predicate ReadsAf(m: Mnemonic) {
    match m
    case
      Aaa | Aas | Daa | Das | Lahf | Pushf => true
    case _ => false
  }

  predicate ReadsDf(m: Mnemonic) {
    match m
    case
      Cmps | Ins | Lahf | Lods | Movs | Movsx | Movzx | Outs | Pushf | Scas | Stos => true
    case _ => false
  }

  predicate ReadsNt(m: Mnemonic) {
    match m
    case
      Iret => true
    case _ => false
  }

  predicate DefinesCf(m: Mnemonic) {
    match m
    case
      Add | And | Bt | Btc | Btr | Bts | Cmp | Fcomi | Fcomip | Fucomi | Fucomip | Imul | Neg | Or | Sar | Shl |
      Shr | SseComisd | SseComiss | Sub | Test | Xor => true
    case _ => false
  }

  predicate DefinesOf(m: Mnemonic) {
    match m
    case
      Add | And | Cmp | Dec | Fcomi | Fcomip | Fucomi | Fucomip | Imul | Inc | Neg | Or | SseComisd | SseComiss
      | Sub | Test | Xor => true
    case _ => false
  }

  predicate DefinesSf(m: Mnemonic) {
    match m
    case
      Add | And | Cmp | Dec | Fcomi | Fcomip | Fucomi | Fucomip | Inc | Neg | Or | Sar | Shl | Shr | SseComisd |
      SseComiss | Sub | Test | Xor => true
    case _ => false
  }

  predicate DefinesZf(m: Mnemonic) {
    match m
    case
      Add | And | Cmp | Cmpxchg | Dec | Fcomi | Fcomip | Fucomi | Fucomip | Inc | Lsl | Neg | Or | Sar | Shl |
      Shr | SseComisd | SseComiss | Sub | Test | Xor => true
    case _ => false
  }

  predicate DefinesPf(m: Mnemonic) {
    match m
    case
      Add | And | Cmp | Dec | Fcomi | Fcomip | Fucomi | Fucomip | Inc | Neg | Or | Sar | Shl | Shr | SseComisd |
      SseComiss | Sub | Test | Xor => true
    case _ => false
  }

  predicate DefinesAf(m: Mnemonic) {
    match m
    case
      Add | Cmp | Dec | Fcomi | Fcomip | Fucomi | Fucomip | Inc | Neg | SseComisd | SseComiss | Sub => true
    case _ => false
  }

  predicate SpoilsCf(m: Mnemonic) {
    match m
    case
      Aad | Aam | Bsf | Bsr | Div | Idiv | Popf | Sahf => true
    case _ => false
  }

  predicate SpoilsOf(m: Mnemonic) {
    match m
    case
      Aaa | Aad | Aam | Aas | Bsf | Bsr | Bt | Btc | Btr | Bts | Div | Idiv | Popf | Rcl | Rcr | Rol | Ror | Sar
      | Shl | Shld | Shr | Shrd => true
    case _ => false
  }

  predicate SpoilsSf(m: Mnemonic) {
    match m
    case
      Aaa | Aas | Bsf | Bsr | Bt | Btc | Btr | Bts | Div | Idiv | Imul | Mul | Popf | Sahf => true
    case _ => false
  }

  predicate SpoilsZf(m: Mnemonic) {
    match m
    case
      Aaa | Aas | Div | Idiv | Imul | Mul | Popf | Sahf => true
    case _ => false
  }

  predicate SpoilsPf(m: Mnemonic) {
    match m
    case
      Aaa | Aas | Bsf | Bsr | Bt | Btc | Btr | Bts | Div | Idiv | Imul | Mul | Popf | Sahf => true
    case _ => false
  }

  predicate SpoilsAf(m: Mnemonic) {
    match m
    case
      Aad | Aam | And | Bsf | Bsr | Bt | Btc | Btr | Bts | Div | Idiv | Imul | Mul | Or | Popf | Sahf | Sar |
      Shl | Shld | Shr | Shrd | Test | Xor => true
    case _ => false
  }

  predicate SpoilsDf(m: Mnemonic) {
    match m
    case
      Popf | Sahf => true
    case _ => false
  }

  lemma {:induction false} ReadsCfSome(m: Mnemonic)
    ensures ReadsCf(m) ==> CF in Read(m)
  {
  }

  lemma {:induction false} ReadsCfOnly(m: Mnemonic)
    ensures CF in Read(m) ==> ReadsCf(m)
  {
  }

  lemma {:induction false} ReadsOfSome(m: Mnemonic)
    ensures ReadsOf(m) ==> OF in Read(m)
  {
  }

  lemma {:induction false} ReadsOfOnly(m: Mnemonic)
    ensures OF in Read(m) ==> ReadsOf(m)
  {
  }

  lemma {:induction false} ReadsSfSome(m: Mnemonic)
    ensures ReadsSf(m) ==> SF in Read(m)
  {
  }

  lemma {:induction false} ReadsSfOnly(m: Mnemonic)
    ensures SF in Read(m) ==> ReadsSf(m)
  {
  }

  lemma {:induction false} ReadsZfSome(m: Mnemonic)
    ensures ReadsZf(m) ==> ZF in Read(m)
  {
  }

  lemma {:induction false} ReadsZfOnly(m: Mnemonic)
    ensures ZF in Read(m) ==> ReadsZf(m)
  {
  }

  lemma {:induction false} ReadsPfSome(m: Mnemonic)
    ensures ReadsPf(m) ==> PF in Read(m)
  {
  }

  lemma {:induction false} ReadsPfOnly(m: Mnemonic)
    ensures PF in Read(m) ==> ReadsPf(m)
  {
  }

  lemma {:induction false} ReadsAfSome(m: Mnemonic)
    ensures ReadsAf(m) ==> AF in Read(m)
  {
  }

  lemma {:induction false} ReadsAfOnly(m: Mnemonic)
    ensures AF in Read(m) ==> ReadsAf(m)
  {
  }

  lemma {:induction false} ReadsDfSome(m: Mnemonic)
    ensures ReadsDf(m) ==> DF in Read(m)
  {
  }

  lemma {:induction false} ReadsDfOnly(m: Mnemonic)
    ensures DF in Read(m) ==> ReadsDf(m)
  {
  }

  lemma {:induction false} ReadsNtSome(m: Mnemonic)
    ensures ReadsNt(m) ==> NT in Read(m)
  {
  }

  lemma {:induction false} ReadsNtOnly(m: Mnemonic)
    ensures NT in Read(m) ==> ReadsNt(m)
  {
  }

  lemma {:induction false} DefinesCfIs(m: Mnemonic)
    ensures CF in Modify(m) <==> DefinesCf(m)
  {
  }

  lemma {:induction false} DefinesOfIs(m: Mnemonic)
    ensures OF in Modify(m) <==> DefinesOf(m)
  {
  }

  lemma {:induction false} DefinesSfIs(m: Mnemonic)
    ensures SF in Modify(m) <==> DefinesSf(m)
  {
  }

  lemma {:induction false} DefinesZfIs(m: Mnemonic)
    ensures ZF in Modify(m) <==> DefinesZf(m)
  {
  }

  lemma {:induction false} DefinesPfIs(m: Mnemonic)
    ensures PF in Modify(m) <==> DefinesPf(m)
  {
  }

  lemma {:induction false} DefinesAfIs(m: Mnemonic)
    ensures AF in Modify(m) <==> DefinesAf(m)
  {
  }

  lemma {:induction false} SpoilsCfIs(m: Mnemonic)
    ensures CF in Undef(m) <==> SpoilsCf(m)
  {
  }

  lemma {:induction false} SpoilsOfIs(m: Mnemonic)
    ensures OF in Undef(m) <==> SpoilsOf(m)
  {
  }

  lemma {:induction false} SpoilsSfIs(m: Mnemonic)
    ensures SF in Undef(m) <==> SpoilsSf(m)
  {
  }

  lemma {:induction false} SpoilsZfIs(m: Mnemonic)
    ensures ZF in Undef(m) <==> SpoilsZf(m)
  {
  }

  lemma {:induction false} SpoilsPfIs(m: Mnemonic)
    ensures PF in Undef(m) <==> SpoilsPf(m)
  {
  }

  lemma {:induction false} SpoilsAfIs(m: Mnemonic)
    ensures AF in Undef(m) <==> SpoilsAf(m)
  {
  }

  lemma {:induction false} SpoilsDfIs(m: Mnemonic)
    ensures DF in Undef(m) <==> SpoilsDf(m)
  {
  }

  /** Is the flag read? */
  predicate ReadsFlag(f: Flag, m: Mnemonic) {
    match f
    case CF => ReadsCf(m)
    case OF => ReadsOf(m)
    case SF => ReadsSf(m)
    case ZF => ReadsZf(m)
    case PF => ReadsPf(m)
    case AF => ReadsAf(m)
    case DF => ReadsDf(m)
    case NT => ReadsNt(m)
  }

  /** Is the flag defined? */
  predicate DefinesFlag(f: Flag, m: Mnemonic) {
    match f
    case CF => DefinesCf(m)
    case OF => DefinesOf(m)
    case SF => DefinesSf(m)
    case ZF => DefinesZf(m)
    case PF => DefinesPf(m)
    case AF => DefinesAf(m)
    case DF => false
    case NT => false
  }

  /** Is the flag left undefined? */
  predicate SpoilsFlag(f: Flag, m: Mnemonic) {
    match f
    case CF => SpoilsCf(m)
    case OF => SpoilsOf(m)
    case SF => SpoilsSf(m)
    case ZF => SpoilsZf(m)
    case PF => SpoilsPf(m)
    case AF => SpoilsAf(m)
    case DF => SpoilsDf(m)
    case NT => false
  }

  lemma {:induction false} OthersAreDefinedByNone(m: Mnemonic)
    ensures DF !in Modify(m) && NT !in Modify(m)
  {
  }

  lemma {:induction false} NtIsLeftAlone(m: Mnemonic)
    ensures NT !in Undef(m)
  {
  }

  /** The table of reads, flag by flag. */
  lemma {:induction false} ReadTable(f: Flag, m: Mnemonic)
    ensures f in Read(m) <==> ReadsFlag(f, m)
  {
    hide Read, ReadsCf, ReadsOf, ReadsSf, ReadsZf, ReadsPf, ReadsAf, ReadsDf, ReadsNt;
    match f {
      case CF =>
        ReadsCfSome(m);
        ReadsCfOnly(m);
      case OF =>
        ReadsOfSome(m);
        ReadsOfOnly(m);
      case SF =>
        ReadsSfSome(m);
        ReadsSfOnly(m);
      case ZF =>
        ReadsZfSome(m);
        ReadsZfOnly(m);
      case PF =>
        ReadsPfSome(m);
        ReadsPfOnly(m);
      case AF =>
        ReadsAfSome(m);
        ReadsAfOnly(m);
      case DF =>
        ReadsDfSome(m);
        ReadsDfOnly(m);
      case NT =>
        ReadsNtSome(m);
        ReadsNtOnly(m);
    }
  }

  /** The table of definitions, flag by flag. */
  lemma {:induction false} ModifyTable(f: Flag, m: Mnemonic)
    ensures f in Modify(m) <==> DefinesFlag(f, m)
  {
    hide Modify, DefinesCf, DefinesOf, DefinesSf, DefinesZf, DefinesPf, DefinesAf;
    match f {
      case CF =>
        DefinesCfIs(m);
      case OF =>
        DefinesOfIs(m);
      case SF =>
        DefinesSfIs(m);
      case ZF =>
        DefinesZfIs(m);
      case PF =>
        DefinesPfIs(m);
      case AF =>
        DefinesAfIs(m);
      case DF =>
        OthersAreDefinedByNone(m);
      case NT =>
        OthersAreDefinedByNone(m);
    }
  }

  /** The table of undefined flags, flag by flag. */
  lemma {:induction false} UndefTable(f: Flag, m: Mnemonic)
    ensures f in Undef(m) <==> SpoilsFlag(f, m)
  {
    hide Undef, SpoilsCf, SpoilsOf, SpoilsSf, SpoilsZf, SpoilsPf, SpoilsAf, SpoilsDf;
    match f {
      case CF =>
        SpoilsCfIs(m);
      case OF =>
        SpoilsOfIs(m);
      case SF =>
        SpoilsSfIs(m);
      case ZF =>
        SpoilsZfIs(m);
      case PF =>
        SpoilsPfIs(m);
      case AF =>
        SpoilsAfIs(m);
      case DF =>
        SpoilsDfIs(m);
      case NT =>
        NtIsLeftAlone(m);
    }
  }
}
