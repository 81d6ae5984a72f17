/**
 The door-verify mailbox shared by the two cores, as a transition system.

 Every volatile access of core 1 (`process_input`) and of core 0
 (`core0_handle_door_verify`) is one atomic step. Stores go to the issuing
 core's buffer and reach memory in any order between locations (in order for
 one location); a barrier waits until the issuing core's buffer is empty.
 A schedule is any sequence of actions, so quantifying over schedules covers
 every interleaving, every delay of either core and a timeout at any poll.
 */
module Mailbox {
  import opened Words
  import opened Decimals

  const INPUT_MIN_LEN := 7
  const INPUT_MAX_LEN := 9
  const TOTP_CODE_LEN := 6

  /** A sequence number as the 32-bit word that is stored, with the attempt that
      it numbers. Only `word` is ever compared; `attempt` is bookkeeping. */
  datatype Stamp = Stamp(word: u32, attempt: nat)

  datatype Memory = Memory(reqSeq: Stamp, reqId: u16, reqCode: u32,
                           respSeq: Stamp, respGranted: bool)

  /** Pending stores, oldest first, one queue for each location. */
  datatype Buffer1 = Buffer1(seqs: seq<Stamp>, ids: seq<u16>, codes: seq<u32>)
  datatype Buffer0 = Buffer0(seqs: seq<Stamp>, verdicts: seq<bool>)

  datatype Pc1 = Scan | Submit | StoreId | StoreCode | RequestFence | StoreSeq | Poll | AcceptFence | ReadVerdict
  datatype Pc0 = Watch | HandleFence | LoadId | LoadCode | Decide | StoreVerdict | VerdictFence | StoreResp | Remember

  /** Core 1: typed digits, the static counter `next_seq`, and the attempt in hand. */
  datatype Core1 = Core1(pc: Pc1, input: Digits, next: Stamp, id: u16, code: u32,
                         matched: Stamp, buffer: Buffer1)

  /** Core 0: the static `last_handled_seq` and the handler's locals. */
  datatype Core0 = Core0(pc: Pc0, last: Stamp, stamp: Stamp, id: u16, code: u32,
                         granted: bool, buffer: Buffer0)

  /** What an observer of both cores can write down. `answered` is the attempt
      whose request produced the response that core 1 accepted. */
  datatype Event<W> =
    | Pressed(key: char)
    | Asked(attempt: nat, id: u16, code: u32)
    | Published(attempt: nat, id: u16, code: u32)
    | Decided(attempt: nat, id: u16, code: u32, world: W, granted: bool)
    | Opened(attempt: nat, answered: nat)
    | Refused(attempt: nat, answered: nat)
    | TimedOut(attempt: nat)

  datatype State<W> = State(mem: Memory, core1: Core1, core0: Core0, trace: seq<Event<W>>)

  datatype Location1 = ReqSeq | ReqId | ReqCode
  datatype Location0 = RespSeq | RespGranted

  /** One scheduling choice. `world` is what core 0 finds in storage and RTC if
      this step decides; `expired` is what the poll finds if it checks the deadline. */
  datatype Action<W> =
    | Press(key: char)
    | Run1(expired: bool)
    | Run0(world: W)
    | Drain1(at1: Location1)
    | Drain0(at0: Location0)

  const ZERO := Stamp(0, 0)

  function Init<W>(): State<W> {
    State(Memory(ZERO, 0, 0, ZERO, false),
          Core1(Scan, [], ZERO, 0, 0, ZERO, Buffer1([], [], [])),
          Core0(Watch, ZERO, ZERO, 0, 0, false, Buffer0([], [])),
          [])
  }

  function Bump(s: Stamp): Stamp {
    Stamp((s.word + 1) % 0x1_0000_0000, s.attempt + 1)
  }

  // --------------------------------------------------------------- key input

  /** The key switch of `main1`: clear on '*', submit on '#', collect digits. */
  function PressKey<W>(s: State<W>, key: char): State<W> {
    var c := s.core1;
    if c.pc != Scan then s  // the keypad is not scanned during an attempt
    else
      var c' :=
        if key == '*' then c.(input := [])
        else if key == '#' then c.(pc := Submit)
        else if IsDigit(key) && |c.input| < INPUT_MAX_LEN then c.(input := c.input + [key])
        else c;
      s.(core1 := c', trace := s.trace + [Pressed(key)])
  }

  function IdPart(input: Digits): Digits
    requires TOTP_CODE_LEN <= |input|
  {
    input[..|input| - TOTP_CODE_LEN]
  }

  function CodePart(input: Digits): Digits
    requires TOTP_CODE_LEN <= |input|
  {
    input[|input| - TOTP_CODE_LEN..]
  }

  /** `(uint16_t)atoi(id_str)` and `(uint32_t)atoi(code_str)`. */
  function TypedId(input: Digits): u16
    requires INPUT_MIN_LEN <= |input|
  {
    Decimal(IdPart(input)) % 0x1_0000
  }

  function TypedCode(input: Digits): u32
    requires INPUT_MIN_LEN <= |input|
  {
    Decimal(CodePart(input)) % 0x1_0000_0000
  }

  // ----------------------------------------------------------- core 1 stepping

  function StepCore1<W>(s: State<W>, expired: bool): State<W> {
    var c := s.core1;
    var b := c.buffer;
    match c.pc
    case Scan => s
    case Submit =>
      if |c.input| < INPUT_MIN_LEN || |c.input| > INPUT_MAX_LEN then
        s.(core1 := c.(pc := Scan, input := []))
      else
        var next := Bump(c.next);
        var id, code := TypedId(c.input), TypedCode(c.input);
        s.(core1 := c.(pc := StoreId, input := [], next := next, id := id, code := code),
           trace := s.trace + [Asked(next.attempt, id, code)])
    case StoreId =>
      s.(core1 := c.(pc := StoreCode, buffer := b.(ids := b.ids + [c.id])))
    case StoreCode =>
      s.(core1 := c.(pc := RequestFence, buffer := b.(codes := b.codes + [c.code])))
    case RequestFence =>
      if b == Buffer1([], [], []) then s.(core1 := c.(pc := StoreSeq)) else s
    case StoreSeq =>
      s.(core1 := c.(pc := Poll, buffer := b.(seqs := b.seqs + [c.next])),
         trace := s.trace + [Published(c.next.attempt, c.id, c.code)])
    case Poll =>
      if s.mem.respSeq.word == c.next.word then
        s.(core1 := c.(pc := AcceptFence, matched := s.mem.respSeq))
      else if expired then
        s.(core1 := c.(pc := Scan), trace := s.trace + [TimedOut(c.next.attempt)])
      else s
    case AcceptFence =>
      if b == Buffer1([], [], []) then s.(core1 := c.(pc := ReadVerdict)) else s
    case ReadVerdict =>
      s.(core1 := c.(pc := Scan),
         trace := s.trace + [if s.mem.respGranted then Opened(c.next.attempt, c.matched.attempt)
                             else Refused(c.next.attempt, c.matched.attempt)])
  }

  function DrainCore1<W>(s: State<W>, at: Location1): State<W> {
    var c := s.core1;
    var b := c.buffer;
    match at
    case ReqSeq =>
      if b.seqs == [] then s
      else s.(mem := s.mem.(reqSeq := b.seqs[0]), core1 := c.(buffer := b.(seqs := b.seqs[1..])))
    case ReqId =>
      if b.ids == [] then s
      else s.(mem := s.mem.(reqId := b.ids[0]), core1 := c.(buffer := b.(ids := b.ids[1..])))
    case ReqCode =>
      if b.codes == [] then s
      else s.(mem := s.mem.(reqCode := b.codes[0]), core1 := c.(buffer := b.(codes := b.codes[1..])))
  }

  // ----------------------------------------------------------- core 0 stepping

  /** `judge` stands for the lookup and TOTP check that `core0_handle_door_verify`
      makes on the id and code it has read, given storage and clock. */
  function StepCore0<W>(judge: (W, u16, u32) -> bool, s: State<W>, world: W): State<W> {
    var c := s.core0;
    var b := c.buffer;
    match c.pc
    case Watch =>
      if s.mem.reqSeq.word == c.last.word then s
      else s.(core0 := c.(pc := HandleFence, stamp := s.mem.reqSeq))
    case HandleFence =>
      if b == Buffer0([], []) then s.(core0 := c.(pc := LoadId)) else s
    case LoadId =>
      s.(core0 := c.(pc := LoadCode, id := s.mem.reqId))
    case LoadCode =>
      s.(core0 := c.(pc := Decide, code := s.mem.reqCode))
    case Decide =>
      var granted := judge(world, c.id, c.code);
      s.(core0 := c.(pc := StoreVerdict, granted := granted),
         trace := s.trace + [Decided(c.stamp.attempt, c.id, c.code, world, granted)])
    case StoreVerdict =>
      s.(core0 := c.(pc := VerdictFence, buffer := b.(verdicts := b.verdicts + [c.granted])))
    case VerdictFence =>
      if b == Buffer0([], []) then s.(core0 := c.(pc := StoreResp)) else s
    case StoreResp =>
      s.(core0 := c.(pc := Remember, buffer := b.(seqs := b.seqs + [c.stamp])))
    case Remember =>
      s.(core0 := c.(pc := Watch, last := c.stamp))
  }

  function DrainCore0<W>(s: State<W>, at: Location0): State<W> {
    var c := s.core0;
    var b := c.buffer;
    match at
    case RespSeq =>
      if b.seqs == [] then s
      else s.(mem := s.mem.(respSeq := b.seqs[0]), core0 := c.(buffer := b.(seqs := b.seqs[1..])))
    case RespGranted =>
      if b.verdicts == [] then s
      else s.(mem := s.mem.(respGranted := b.verdicts[0]),
              core0 := c.(buffer := b.(verdicts := b.verdicts[1..])))
  }

  function Step<W>(judge: (W, u16, u32) -> bool, s: State<W>, a: Action<W>): State<W> {
    match a
    case Press(key) => PressKey(s, key)
    case Run1(expired) => StepCore1(s, expired)
    case Run0(world) => StepCore0(judge, s, world)
    case Drain1(at1) => DrainCore1(s, at1)
    case Drain0(at0) => DrainCore0(s, at0)
  }

  /** The state after a schedule. */
  function Exec<W>(judge: (W, u16, u32) -> bool, s: State<W>, schedule: seq<Action<W>>): State<W> {
    if schedule == [] then s
    else Step(judge, Exec(judge, s, schedule[..|schedule| - 1]), schedule[|schedule| - 1])
  }

  ghost predicate Reachable<W(!new)>(judge: (W, u16, u32) -> bool, s: State<W>) {
    exists schedule: seq<Action<W>> :: s == Exec(judge, Init(), schedule)
  }

  lemma {:induction false} ExecAppend<W>(judge: (W, u16, u32) -> bool, s: State<W>,
                                         first: seq<Action<W>>, second: seq<Action<W>>)
    ensures Exec(judge, s, first + second) == Exec(judge, Exec(judge, s, first), second)
    decreases |second|
  {
    if second == [] {
      assert first + second == first;
    } else {
      var init := second[..|second| - 1];
      assert (first + second)[..|first + second| - 1] == first + init;
      ExecAppend(judge, s, first, init);
    }
  }
}
