/**
 The BMC half of the KCS handshake, as section 9 of the IPMI v2.0 specification describes it:
 a step machine that, at moments of its own choosing, accepts the byte waiting in the input
 register (clearing IBF) or puts a byte in the output register (setting OBF).
 */
module KcsProtocol {
  import opened Bytes

  const WRITE_START: byte := 0x61
  const WRITE_END: byte := 0x62
  const READ: byte := 0x68
  const ABORT: byte := 0x60

  type Response = r: seq<byte> | |r| > 0 witness [0]

  datatype Exchange = Exchange(request: seq<byte>, response: seq<byte>)

  datatype Phase =
    | Idle
    | Writing         // collecting request bytes
    | WritingLast     // WRITE_END seen, one byte to come
    | Reading         // handing out the response
    | Aborting        // ABORT seen, the closing 00h to come
    | ReportingError  // handing out the error status byte
    | Failed          // a protocol violation was seen

  /** What the BMC remembers of the dialogue; the head of `reply` is the byte being handed out. */
  datatype Core = Core(phase: Phase, request: seq<byte>, reply: seq<byte>, served: seq<Exchange>)

  /** The core and the two registers. `owes` means a byte is due in the output register. */
  datatype Bmc = Bmc(core: Core, ibf: bool, isCommand: bool, dataIn: byte, obf: bool, dataOut: byte, owes: bool)

  /** The two state bits of the status register. */
  function StateCode(p: Phase): (code: nat)
    ensures code < 4
  {
    match p
    case Idle => 0
    case Reading => 1
    case ReportingError => 1
    case Writing => 2
    case WritingLast => 2
    case Aborting => 3
    case Failed => 3
  }

  /** The phases entered with a byte to hand out; Idle is entered with a closing dummy byte. */
  predicate Speaks(p: Phase) {
    p == Idle || p == Reading || p == ReportingError
  }

  /** The dialogue after the BMC has accepted a byte from the command or the data register.
      `answers(k)` is the response this BMC gives to the k-th request it serves. */
  function Next(c: Core, isCommand: bool, input: byte, answers: nat -> Response): Core {
    if isCommand then
      if input == WRITE_START then Core(Writing, [], [], c.served)
      else if input == ABORT then Core(Aborting, [], [], c.served)
      else if input == WRITE_END && c.phase == Writing then c.(phase := WritingLast)
      else Core(Failed, [], [], c.served)
    else
      match c.phase
      case Writing => c.(request := c.request + [input])
      case WritingLast =>
        var request := c.request + [input];
        var response: seq<byte> := answers(|c.served|);
        Core(Reading, [], response, c.served + [Exchange(request, response)])
      case Reading =>
        if input != READ then Core(Failed, [], [], c.served)
        else if |c.reply| > 1 then c.(reply := c.reply[1..])
        else Core(Idle, [], [], c.served)
      case Aborting => Core(ReportingError, [], [], c.served)
      case ReportingError => Core(if input == READ then Idle else Failed, [], [], c.served)
      case Idle => Core(Failed, [], [], c.served)
      case Failed => Core(Failed, [], [], c.served)
  }

  ghost predicate ValidBmc(b: Bmc) {
    && (b.core.phase == Reading ==> b.core.reply != [])
    && (b.owes ==> Speaks(b.core.phase))
  }

  /** One choice of the BMC: take the input, or fill the output register. While it collects
      bytes a BMC may also raise OBF over a byte that means nothing. */
  datatype Move = Accept(dummy: Option<byte>) | Emit(filler: byte)

  function Apply(b: Bmc, m: Move, answers: nat -> Response): Bmc
    requires ValidBmc(b)
  {
    match m
    case Accept(dummy) =>
      if !b.ibf then b else
      var c := Next(b.core, b.isCommand, b.dataIn, answers);
      var noise := dummy.Some? && !Speaks(c.phase);
      b.(core := c, ibf := false, owes := Speaks(c.phase), obf := b.obf || noise,
         dataOut := if noise then dummy.value else b.dataOut)
    case Emit(filler) =>
      if !b.owes || b.obf then b else
      b.(obf := true, owes := false, dataOut := if b.core.phase == Reading then b.core.reply[0] else filler)
  }

  lemma ApplyKeepsValid(b: Bmc, m: Move, answers: nat -> Response)
    requires ValidBmc(b)
    ensures ValidBmc(Apply(b, m, answers))
  {
  }

  function Play(b: Bmc, moves: seq<Move>, answers: nat -> Response): (c: Bmc)
    requires ValidBmc(b)
    ensures ValidBmc(c)
    decreases |moves|
  {
    if moves == [] then b else
    ApplyKeepsValid(b, moves[0], answers);
    Play(Apply(b, moves[0], answers), moves[1..], answers)
  }

  // ---- What any number of BMC moves can do between two host accesses ----

  /** The output register holds, or is about to hold, the byte the dialogue calls for. */
  ghost predicate Offers(b: Bmc) {
    && b.owes != b.obf
    && (b.obf && b.core.phase == Reading && b.core.reply != [] ==> b.dataOut == b.core.reply[0])
  }

  ghost predicate OnlyEmitted(b: Bmc, c: Bmc) {
    && c.core == b.core && c.ibf == b.ibf && c.isCommand == b.isCommand && c.dataIn == b.dataIn
    && ((c.obf, c.owes, c.dataOut) == (b.obf, b.owes, b.dataOut) || (b.owes && !b.obf && c.obf && Offers(c)))
  }

  ghost predicate Accepted(b: Bmc, c: Bmc, answers: nat -> Response) {
    && b.ibf && !c.ibf
    && c.core == Next(b.core, b.isCommand, b.dataIn, answers)
    && (Speaks(c.core.phase) && !b.obf && !b.owes ==> Offers(c))
    && (if Speaks(c.core.phase) then c.owes || c.obf else !c.owes)
  }

  ghost predicate Reaches(b: Bmc, c: Bmc, answers: nat -> Response) {
    OnlyEmitted(b, c) || Accepted(b, c, answers)
  }

  lemma ApplyReaches(b: Bmc, m: Move, answers: nat -> Response)
    requires ValidBmc(b)
    ensures Reaches(b, Apply(b, m, answers), answers)
  {
  }

  lemma ReachesTransitive(b: Bmc, c: Bmc, d: Bmc, answers: nat -> Response)
    requires ValidBmc(b) && ValidBmc(c)
    requires Reaches(b, c, answers) && Reaches(c, d, answers)
    ensures Reaches(b, d, answers)
  {
  }

  /** However many moves the BMC makes unobserved, it accepts at most the one waiting byte and
      offers at most the one byte the dialogue calls for. */
  lemma {:induction false} PlayReaches(b: Bmc, moves: seq<Move>, answers: nat -> Response)
    requires ValidBmc(b)
    ensures Reaches(b, Play(b, moves, answers), answers)
    decreases |moves|
  {
    if moves != [] {
      ApplyKeepsValid(b, moves[0], answers);
      ApplyReaches(b, moves[0], answers);
      var c := Apply(b, moves[0], answers);
      PlayReaches(c, moves[1..], answers);
      ReachesTransitive(b, c, Play(c, moves[1..], answers), answers);
    }
  }

  // ---- Timeliness ----

  datatype Debt = Nothing | Output | Input

  /** What the BMC has still to do before the host can go on. */
  function Owed(b: Bmc): Debt {
    if b.ibf then Input else if b.owes && !b.obf then Output else Nothing
  }

  function Settle(b: Bmc, answers: nat -> Response): (c: Bmc)
    requires ValidBmc(b)
    ensures ValidBmc(c) && Reaches(b, c, answers)
    ensures Owed(b) != Nothing ==> Owed(c) != Owed(b)
  {
    if b.ibf then Apply(b, Accept(None), answers) else Apply(b, Emit(0), answers)
  }

  // ---- The status byte ----

  predicate Obf(s: byte) { s % 2 == 1 }
  predicate Ibf(s: byte) { s / 2 % 2 == 1 }
  function State(s: byte): nat { s / 64 }

  /** The handshake bits of `s` are those of the BMC. */
  predicate Shows(s: byte, b: Bmc) {
    Obf(s) == b.obf && Ibf(s) == b.ibf && State(s) == StateCode(b.core.phase)
  }

  /** The status register: the state and buffer bits belong to the handshake, the four others
      (attention, C/D, OEM) are `extra`. */
  function StatusByte(b: Bmc, extra: nat): (s: byte)
    requires extra < 16
    ensures Shows(s, b)
  {
    (if b.obf then 1 else 0) + (if b.ibf then 2 else 0) + 4 * extra + 64 * StateCode(b.core.phase)
  }

  /** All ones is what an absent device reads as; a BMC that is present never shows it. */
  predicate Present(b: Bmc, extra: nat) {
    extra < 16 && StatusByte(b, extra) != 0xFF
  }

  /** The four other bits, chosen anew for each access in view of what the BMC is doing. */
  type ExtraBits = f: (nat, Bmc) -> nat | forall n: nat, b: Bmc :: Present(b, f(n, b)) witness (n, b) => 0

  /** Idle, with both buffers empty and nothing due. */
  predicate AtRest(b: Bmc) {
    b.core.phase == Idle && !b.ibf && !b.obf && !b.owes
  }
}
