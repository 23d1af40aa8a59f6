/** Conversion of the simulator's line-clear delay record (line_clear_delay_state.py). */
module LineClear {
  import opened Bytes

  /** The fixed native record: a count and four line slots, of which the
      first `count` (at most four) are meaningful. */
  datatype ObpfLineClearDelayState = ObpfLineClearDelayState(
    count: Byte, first: Byte, second: Byte, third: Byte, fourth: Byte,
    countdown: U64, delay: U64)

  datatype LineClearDelayState = LineClearDelayState(lines: seq<int>, countdown: int, delay: int)

  function Slots(obpf: ObpfLineClearDelayState): seq<int>
  {
    [obpf.first, obpf.second, obpf.third, obpf.fourth]
  }

  /** LineClearDelayState.from_obpf: appends each slot whose position is below count. */
  method FromObpf(obpf: ObpfLineClearDelayState) returns (state: LineClearDelayState)
    ensures |state.lines| == if obpf.count <= 4 then obpf.count as int else 4
    ensures state.lines == Slots(obpf)[..|state.lines|]
    ensures obpf.count == 0 ==> state.lines == []
    ensures state.countdown == obpf.countdown && state.delay == obpf.delay
  {
    var lines: seq<int> := [];
    if obpf.count > 0 {
      lines := lines + [obpf.first];
    }
    if obpf.count > 1 {
      lines := lines + [obpf.second];
    }
    if obpf.count > 2 {
      lines := lines + [obpf.third];
    }
    if obpf.count > 3 {
      lines := lines + [obpf.fourth];
    }
    state := LineClearDelayState(lines, obpf.countdown, obpf.delay);
  }
}
