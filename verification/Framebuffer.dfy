/** The Raspberry Pi 4 framebuffer: `buffers` screens above one another in one memory, flipped by panning. */
module Framebuffer {
  import opened MachineArith
  import opened Results

  datatype Config = Config(width: nat, height: nat, buffers: nat) {
    predicate Valid() { width > 0 && height > 0 && buffers > 0 }

    /** Rows are tightly packed, 4 bytes a pixel. */
    function Pitch(): nat { 4 * width }

    /** The bytes of one buffer. */
    function Size(): nat { height * Pitch() }

    /** The first byte of buffer `i`. */
    function Start(i: nat): nat { i * Size() }

    /** Byte `p` lies in buffer `i`. */
    predicate Holds(i: nat, p: int) { Start(i) <= p < Start(i) + Size() }
  }

  /** Buffers are in bounds and do not overlap. */
  lemma BuffersDisjoint(c: Config, i: nat, j: nat, p: int)
    requires c.Valid() && i < c.buffers && j < c.buffers
    ensures c.Start(i) + c.Size() <= c.buffers * c.Size()
    ensures c.Holds(i, p) && c.Holds(j, p) ==> i == j
  {
    MulMonotone(i + 1, c.buffers, c.Size());
    MulSucc(i, c.Size());
    MulSucc(j, c.Size());
    if i < j { MulMonotone(i + 1, j, c.Size()); }
    if j < i { MulMonotone(j + 1, i, c.Size()); }
  }

  /** A frame to copy: the rectangle, and where its pixels are. */
  datatype Frame = Frame(x: int, y: int, w: int, h: int, pitchBytes: nat, bytesPerPixel: int, buf: seq<Byte>) {
    predicate Fits(c: Config) {
      bytesPerPixel == 4 && w > 0 && h > 0 && x >= 0 && y >= 0 && x + w <= c.width && y + h <= c.height
    }

    /** The caller's buffer holds every row that is read. */
    predicate Backed() {
      h > 0 && w > 0 ==> (h - 1) * pitchBytes + 4 * w <= |buf|
    }

    /** Byte `p` of the memory is in this rectangle of buffer `target`, within its first `rows` rows. */
    predicate Covers(c: Config, target: nat, rows: int, p: int)
      requires c.Valid()
    {
      && target * c.height + y <= p / c.Pitch() < target * c.height + y + rows
      && 4 * x <= p % c.Pitch() < 4 * x + 4 * w
    }

    /** Where in `buf` the new value of byte `p` comes from. */
    function SourceOf(c: Config, target: nat, p: int): int
      requires c.Valid()
    {
      (p / c.Pitch() - (target * c.height + y)) * pitchBytes + p % c.Pitch() - 4 * x
    }
  }

  lemma SourceInBuf(f: Frame, c: Config, target: nat, p: int)
    requires c.Valid() && f.Fits(c) && f.Backed() && f.Covers(c, target, f.h, p)
    ensures 0 <= f.SourceOf(c, target, p) < |f.buf|
  {
    var row := p / c.Pitch() - (target * c.height + f.y);
    MulMonotone(0, row, f.pitchBytes);
    MulMonotone(row, f.h - 1, f.pitchBytes);
  }

  /** A byte in one of a buffer's rows is in the buffer. */
  lemma RowInBuffer(c: Config, target: nat, p: int)
    requires c.Valid() && target * c.height <= p / c.Pitch() < target * c.height + c.height
    ensures c.Holds(target, p)
  {
    var r, pitch := p / c.Pitch(), c.Pitch();
    QuotientBounds(p, pitch);
    MulMonotone(target * c.height, r, pitch);
    MulMonotone(r + 1, target * c.height + c.height, pitch);
    MulSucc(r, pitch);
    RowsToBytes(target, c.height, pitch);
  }

  lemma RowsToBytes(target: int, height: int, pitch: int)
    ensures (target * height) * pitch == target * (height * pitch)
    ensures (target * height + height) * pitch == target * (height * pitch) + height * pitch
  {
  }

  /** Everything drawn lies in the target buffer. */
  lemma CoversInBuffer(f: Frame, c: Config, target: nat, p: int)
    requires c.Valid() && f.Fits(c) && f.Covers(c, target, f.h, p)
    ensures c.Holds(target, p)
  {
    RowInBuffer(c, target, p);
  }

  /** The memory after copying the first `rows` rows of `f` into buffer `target`. */
  function Drawn(c: Config, mem: seq<Byte>, f: Frame, target: nat, rows: int): (r: seq<Byte>)
    requires c.Valid() && f.Fits(c) && f.Backed() && rows <= f.h
    ensures |r| == |mem|
  {
    seq(|mem|, p requires 0 <= p < |mem| =>
      if f.Covers(c, target, rows, p) then (SourceInBuf(f, c, target, p); f.buf[f.SourceOf(c, target, p)]) else mem[p])
  }

  /** What can be seen of the display: the memory, the buffer last shown, and whether there is a display. */
  datatype Screen = Screen(mem: seq<Byte>, shown: nat, ready: bool)

  datatype Op =
    | Write(frame: Frame, panFails: bool)
    | Present(index: int, panFails: bool)

  function Target(c: Config, shown: nat): nat
    requires c.Valid()
  {
    if c.buffers > 1 then (shown + 1) % c.buffers else 0
  }

  predicate Draws(c: Config, s: Screen, op: Op) {
    op.Write? && s.ready && op.frame.Fits(c)
  }

  /** A pan asked of the firmware. */
  datatype Pan = Pan(index: nat, failed: bool)

  function PansOf(c: Config, s: Screen, op: Op): seq<Pan>
    requires c.Valid()
  {
    match op
    case Write(f, fails) => if Draws(c, s, op) then [Pan(Target(c, s.shown), fails)] else []
    case Present(index, fails) => if s.ready && 0 <= index < c.buffers then [Pan(index, fails)] else []
  }

  function Apply(c: Config, s: Screen, op: Op): Screen
    requires c.Valid() && (op.Write? ==> op.frame.Backed())
  {
    match op
    case Write(f, fails) =>
      if !Draws(c, s, op) then s
      else
        var t := Target(c, s.shown);
        Screen(Drawn(c, s.mem, f, t, f.h), if fails then s.shown else t, s.ready)
    case Present(index, fails) =>
      if !s.ready || index < 0 || index >= c.buffers || fails then s else s.(shown := index)
  }

  ghost predicate ValidScreen(c: Config, s: Screen) {
    c.Valid() && |s.mem| >= c.buffers * c.Size() && s.shown < c.buffers
  }

  /** The buffer drawn into is a hidden one exactly when there are at least two. */
  lemma TargetIsHidden(c: Config, shown: nat)
    requires c.Valid() && shown < c.buffers
    ensures Target(c, shown) < c.buffers
    ensures Target(c, shown) != shown <==> c.buffers >= 2
  {
    if c.buffers == 1 {
    } else if shown + 1 < c.buffers {
      assert (shown + 1) % c.buffers == shown + 1;
    } else {
      assert (shown + 1) % c.buffers == 0;
    }
  }

  /** One operation changes no byte outside the requested rectangle, and with two buffers none on screen. */
  lemma ApplyKeepsVisible(c: Config, s: Screen, op: Op)
    requires ValidScreen(c, s) && (op.Write? ==> op.frame.Backed())
    ensures ValidScreen(c, Apply(c, s, op)) && |Apply(c, s, op).mem| == |s.mem|
    ensures forall p | 0 <= p < |s.mem| && Apply(c, s, op).mem[p] != s.mem[p] ::
              Draws(c, s, op) && op.frame.Covers(c, Target(c, s.shown), op.frame.h, p) && c.Holds(Target(c, s.shown), p)
    ensures c.buffers >= 2 ==>
              forall p | 0 <= p < |s.mem| && c.Holds(s.shown, p) :: Apply(c, s, op).mem[p] == s.mem[p]
  {
    var q := Apply(c, s, op);
    var t := Target(c, s.shown);
    TargetIsHidden(c, s.shown);
    forall p | 0 <= p < |s.mem| && q.mem[p] != s.mem[p]
      ensures Draws(c, s, op) && op.frame.Covers(c, t, op.frame.h, p) && c.Holds(t, p)
    {
      CoversInBuffer(op.frame, c, t, p);
    }
    forall p | 0 <= p < |s.mem| && c.Holds(s.shown, p) && c.buffers >= 2
      ensures q.mem[p] == s.mem[p]
    {
      BuffersDisjoint(c, t, s.shown, p);
    }
  }

  // ----- pixel by pixel -----

  /** A pixel is in the rectangle. */
  predicate Inside(f: Frame, x: int, y: int) {
    f.x <= x < f.x + f.w && f.y <= y < f.y + f.h
  }

  /** A rectangle is drawn exactly when it has 4 bytes a pixel, is not empty, and lies on the screen with every pixel. */
  lemma FitsExactly(c: Config, f: Frame)
    requires c.Valid()
    ensures f.Fits(c) <==>
            && f.bytesPerPixel == 4 && f.w > 0 && f.h > 0
            && forall x, y | Inside(f, x, y) :: 0 <= x < c.width && 0 <= y < c.height
  {
    if f.w > 0 && f.h > 0 {
      assert Inside(f, f.x, f.y) && Inside(f, f.x + f.w - 1, f.y + f.h - 1);
    }
  }

  /** Byte `k` of the pixel in column `x` and row `y` of buffer `i`. */
  function At(c: Config, i: nat, x: nat, y: nat, k: nat): nat {
    c.Start(i) + (y * c.width + x) * 4 + k
  }

  /** The next buffer, the first one after the last. */
  lemma TargetIsNext(c: Config, shown: nat)
    requires c.Valid() && shown < c.buffers
    ensures Target(c, shown) == if shown + 1 < c.buffers then shown + 1 else 0
  {
  }

  /**
   What a write does to each byte of each pixel of each buffer: those of the rectangle in the next buffer
   are taken from the caller's row and column, all others stay; nothing is done without a display, or for
   a rectangle that is not drawn.
   */
  lemma WriteExactly(c: Config, s: Screen, f: Frame, panFails: bool, i: nat, x: nat, y: nat, k: nat)
    requires ValidScreen(c, s) && f.Backed()
    requires i < c.buffers && x < c.width && y < c.height && k < 4
    ensures var q, next := Apply(c, s, Write(f, panFails)), if s.shown + 1 < c.buffers then s.shown + 1 else 0;
            && At(c, i, x, y, k) < |s.mem| == |q.mem|
            && (if s.ready && f.Fits(c) && i == next && Inside(f, x, y) then
                  var o := (y - f.y) * f.pitchBytes + (x - f.x) * 4 + k;
                  0 <= o < |f.buf| && q.mem[At(c, i, x, y, k)] == f.buf[o]
                else q.mem[At(c, i, x, y, k)] == s.mem[At(c, i, x, y, k)])
            && q.shown == (if s.ready && f.Fits(c) && !panFails then next else s.shown)
  {
    TargetIsNext(c, s.shown);
    var p := At(c, i, x, y, k);
    AtIsByte(c, i, x, y, k);
    BuffersDisjoint(c, i, i, p);
    if s.ready && f.Fits(c) {
      var t := Target(c, s.shown);
      CoversExactly(c, f, t, i, x, y, k);
      if f.Covers(c, t, f.h, p) { SourceInBuf(f, c, t, p); }
    }
  }

  /** A frame of the size of the screen is drawn. */
  lemma FullFrame(c: Config, f: Frame)
    requires c.Valid() && f.x == 0 && f.y == 0 && f.w == c.width && f.h == c.height && f.bytesPerPixel == 4
    ensures f.Fits(c)
  {
    FitsExactly(c, f);
  }

  lemma AtIsByte(c: Config, i: nat, x: nat, y: nat, k: nat)
    requires c.Valid() && x < c.width && y < c.height && k < 4
    ensures var p := At(c, i, x, y, k);
            c.Holds(i, p) && p / c.Pitch() == i * c.height + y && p % c.Pitch() == 4 * x + k
  {
    var p, row, pitch := At(c, i, x, y, k), i * c.height + y, c.Pitch();
    assert p == row * pitch + (4 * x + k) by {
      RowsToBytes(i, c.height, pitch);
      MulSum(i * c.height, y, pitch);
      FourTimes(y, c.width, x);
    }
    MulMonotone(0, i * c.height, 1);
    RowSpan(p, pitch, row, 4 * x + k, 4 * x + k + 1);
    RowInBuffer(c, i, p);
  }

  lemma FourTimes(y: int, width: int, x: int)
    ensures (y * width + x) * 4 == y * (4 * width) + 4 * x
  {
  }

  lemma CoversExactly(c: Config, f: Frame, t: nat, i: nat, x: nat, y: nat, k: nat)
    requires c.Valid() && f.Fits(c) && t < c.buffers && i < c.buffers && x < c.width && y < c.height && k < 4
    ensures f.Covers(c, t, f.h, At(c, i, x, y, k)) <==> i == t && Inside(f, x, y)
    ensures i == t ==> f.SourceOf(c, t, At(c, i, x, y, k)) == (y - f.y) * f.pitchBytes + (x - f.x) * 4 + k
  {
    var p := At(c, i, x, y, k);
    AtIsByte(c, i, x, y, k);
    if f.Covers(c, t, f.h, p) {
      CoversInBuffer(f, c, t, p);
      BuffersDisjoint(c, i, t, p);
    }
  }

  function Run(c: Config, s: Screen, ops: seq<Op>): Screen
    requires c.Valid() && forall i | 0 <= i < |ops| && ops[i].Write? :: ops[i].frame.Backed()
  {
    if ops == [] then s else Apply(c, Run(c, s, ops[..|ops| - 1]), ops[|ops| - 1])
  }

  /** All pans asked of the firmware over a run. */
  function PanLog(c: Config, s: Screen, ops: seq<Op>): seq<Pan>
    requires c.Valid() && forall i | 0 <= i < |ops| && ops[i].Write? :: ops[i].frame.Backed()
  {
    if ops == [] then []
    else PanLog(c, s, ops[..|ops| - 1]) + PansOf(c, Run(c, s, ops[..|ops| - 1]), ops[|ops| - 1])
  }

  /** The buffer the firmware shows: the one of the last pan it accepted. */
  function OnScreen(initial: nat, pans: seq<Pan>): nat {
    if pans == [] then initial
    else if !pans[|pans| - 1].failed then pans[|pans| - 1].index
    else OnScreen(initial, pans[..|pans| - 1])
  }

  lemma {:induction false} OnScreenIsLast(initial: nat, pans: seq<Pan>, j: nat)
    requires j <= |pans| && (j < |pans| ==> !pans[j].failed)
    requires forall i | (if j < |pans| then j + 1 else 0) <= i < |pans| :: pans[i].failed
    ensures OnScreen(initial, pans) == if j < |pans| then pans[j].index else initial
  {
    if pans != [] && pans[|pans| - 1].failed {
      OnScreenIsLast(initial, pans[..|pans| - 1], if j < |pans| then j else |pans| - 1);
    }
  }

  /** Over any mix of writes, presents and failed pans, `shown` is the buffer the firmware shows. */
  lemma {:induction false} ShownIsOnScreen(c: Config, s: Screen, ops: seq<Op>)
    requires c.Valid() && forall i | 0 <= i < |ops| && ops[i].Write? :: ops[i].frame.Backed()
    ensures Run(c, s, ops).shown == OnScreen(s.shown, PanLog(c, s, ops))
  {
    if ops != [] {
      var init := ops[..|ops| - 1];
      ShownIsOnScreen(c, s, init);
      var log, pans := PanLog(c, s, ops), PansOf(c, Run(c, s, init), ops[|ops| - 1]);
      if pans == [] {
        assert log == PanLog(c, s, init);
      } else {
        assert log[|log| - 1] == pans[0] && log[..|log| - 1] == PanLog(c, s, init);
      }
    }
  }

  lemma {:induction false} RunStaysValid(c: Config, s: Screen, ops: seq<Op>)
    requires ValidScreen(c, s) && forall i | 0 <= i < |ops| && ops[i].Write? :: ops[i].frame.Backed()
    ensures ValidScreen(c, Run(c, s, ops)) && |Run(c, s, ops).mem| == |s.mem|
  {
    if ops != [] {
      RunStaysValid(c, s, ops[..|ops| - 1]);
      ApplyKeepsVisible(c, Run(c, s, ops[..|ops| - 1]), ops[|ops| - 1]);
    }
  }

  /**
   Buffer safety over runs: with at least two buffers, no operation of any run changes a byte of the
   buffer the firmware was last told, successfully, to show.
   */
  lemma VisibleNeverTouched(c: Config, s: Screen, ops: seq<Op>, k: nat, p: nat)
    requires ValidScreen(c, s) && forall i | 0 <= i < |ops| && ops[i].Write? :: ops[i].frame.Backed()
    requires c.buffers >= 2 && k < |ops|
    ensures var before, after := Run(c, s, ops[..k]), Run(c, s, ops[..k + 1]);
            && before.shown == OnScreen(s.shown, PanLog(c, s, ops[..k]))
            && |before.mem| == |after.mem| == |s.mem|
            && (p < |s.mem| && c.Holds(before.shown, p) ==> after.mem[p] == before.mem[p])
  {
    ShownIsOnScreen(c, s, ops[..k]);
    RunStaysValid(c, s, ops[..k]);
    assert ops[..k + 1][..k] == ops[..k];
    ApplyKeepsVisible(c, Run(c, s, ops[..k]), ops[k]);
  }

  /** One row of the copy: a contiguous stretch of memory is one row of the rectangle. */
  lemma RowSpan(p: int, pitch: nat, row: int, lo: int, hi: int)
    requires pitch > 0 && 0 <= lo <= hi <= pitch
    ensures row * pitch + lo <= p < row * pitch + hi <==> p / pitch == row && lo <= p % pitch < hi
  {
    QuotientBounds(p, pitch);
    if row * pitch + lo <= p < row * pitch + hi {
      MulSucc(row, pitch);
      QuotientIs(p, pitch, row);
    }
    assert p == (p / pitch) * pitch + p % pitch;
  }

  class Glue {
    const config: Config
    const phys: nat
    const cpu: array<Byte>
    var shown: nat
    var ready: bool
    var panFailures: nat

    ghost predicate Valid()
      reads this, cpu
    {
      ValidScreen(config, State())
    }

    ghost function State(): Screen
      reads this, cpu
    {
      Screen(cpu[..], shown, ready)
    }

    constructor (config: Config, phys: nat, cpu: array<Byte>, ready: bool)
      requires config.Valid() && cpu.Length >= config.buffers * config.Size()
      ensures Valid() && this.config == config && this.cpu == cpu && this.phys == phys
      ensures shown == 0 && this.ready == ready
    {
      this.config, this.phys, this.cpu, this.ready := config, phys, cpu, ready;
      shown, panFailures := 0, 0;
    }

    /** Shows buffer `index` from the next vsync on, unless the pan fails. */
    method Show(index: nat, panFails: bool)
      requires Valid() && index < config.buffers
      modifies `shown, `panFailures
      ensures Valid()
      ensures shown == if panFails then old(shown) else index
      ensures panFailures == old(panFailures) + if panFails then 1 else 0
    {
      if panFails {
        panFailures := panFailures + 1;
      } else {
        shown := index;
      }
    }

    method Present(index: int, panFails: bool)
      requires Valid()
      modifies `shown, `panFailures
      ensures Valid() && State() == Apply(config, old(State()), Op.Present(index, panFails))
      ensures shown == if ready && 0 <= index < config.buffers && !panFails then index else old(shown)
    {
      if ready && index >= 0 && index < config.buffers {
        Show(index, panFails);
      }
    }

    /** Copies the frame, row by row, into the buffer that is not on screen, then flips to it. */
    method DisplayWrite(f: Frame, panFails: bool)
      requires Valid() && f.Backed()
      modifies this, cpu
      ensures Valid() && State() == Apply(config, old(State()), Write(f, panFails))
    {
      if !ready || !f.Fits(config) {
        return;
      }
      var target := Target(config, shown);
      TargetIsHidden(config, shown);
      CopyRows(f, target);
      Show(target, panFails);
    }

    method CopyRows(f: Frame, target: nat)
      requires Valid() && f.Fits(config) && f.Backed() && target < config.buffers
      modifies cpu
      ensures cpu[..] == Drawn(config, old(cpu[..]), f, target, f.h)
    {
      ghost var start := cpu[..];
      var dst := target * config.height * config.Pitch();
      var row := 0;
      while row < f.h
        invariant 0 <= row <= f.h
        invariant cpu[..] == Drawn(config, start, f, target, row)
      {
        var to := dst + (f.y + row) * config.Pitch() + f.x * 4;
        var from := row * f.pitchBytes;
        RowInBounds(f, config, target, row);
        ghost var before := cpu[..];
        hide Drawn;
        CopyBytes(to, f.buf, from, f.w * 4);
        RowDrawn(config, start, f, target, row, before, cpu[..], to);
        row := row + 1;
      }
    }

    /** memcpy of `n` bytes from `buf + from`. */
    method CopyBytes(to: nat, buf: seq<Byte>, from: nat, n: nat)
      requires to + n <= cpu.Length && from + n <= |buf|
      modifies cpu
      ensures forall p | 0 <= p < cpu.Length :: cpu[p] == if to <= p < to + n then buf[from + (p - to)] else old(cpu[p])
    {
      forall i | 0 <= i < n {
        cpu[to + i] := buf[from + i];
      }
    }

    /** The window of buffer `index`: the address and the shape handed to the GPU driver. */
    method NativeWindow(index: int) returns (r: Option<Window>)
      requires Valid()
      ensures r.None? <==> !ready || index < 0 || index >= config.buffers
      ensures r.Some? ==>
                && r.value.phys - phys == config.Start(index)
                && r.value.phys - phys + r.value.height * r.value.strideBytes <= cpu.Length
                && r.value.width == config.width && r.value.height == config.height
                && forall j: nat, p | j < config.buffers && config.Holds(j, p) ::
                     j == index <==> r.value.phys - phys <= p < r.value.phys - phys + r.value.height * r.value.strideBytes
    {
      if !ready || index < 0 || index >= config.buffers {
        return None;
      }
      r := Some(Window(phys + index * config.height * config.Pitch(), config.width, config.height, config.Pitch()));
      assert index * config.height * config.Pitch() == config.Start(index);
      BuffersDisjoint(config, index, index, 0);
      forall j: nat, p | j < config.buffers && config.Holds(j, p)
        ensures j == index <==> config.Holds(index, p)
      {
        BuffersDisjoint(config, index, j, p);
      }
    }
  }

  datatype Window = Window(phys: nat, width: nat, height: nat, strideBytes: nat)

  lemma RowInBounds(f: Frame, c: Config, target: nat, row: nat)
    requires c.Valid() && f.Fits(c) && f.Backed() && target < c.buffers && row < f.h
    ensures var to := target * c.height * c.Pitch() + (f.y + row) * c.Pitch() + f.x * 4;
            && to == (target * c.height + f.y + row) * c.Pitch() + 4 * f.x
            && 0 <= to && to + f.w * 4 <= c.buffers * c.Size()
    ensures 0 <= row * f.pitchBytes && row * f.pitchBytes + f.w * 4 <= |f.buf|
  {
    TargetRow(target, c.height, f.y + row, c.Pitch());
    BuffersDisjoint(c, target, target, 0);
    SourceRow(row, f.h, f.pitchBytes);
  }

  /** Row `r` of a buffer, in bytes. */
  lemma TargetRow(target: nat, height: nat, r: nat, pitch: nat)
    requires r < height
    ensures target * height * pitch + r * pitch == (target * height + r) * pitch
    ensures target * height * pitch == target * (height * pitch) >= 0
    ensures 0 <= r * pitch && r * pitch + pitch <= height * pitch
  {
    MulSum(target * height, r, pitch);
    RowsToBytes(target, height, pitch);
    MulMonotone(0, target * height, pitch);
    MulMonotone(0, r, pitch);
    MulMonotone(r + 1, height, pitch);
    MulSucc(r, pitch);
  }

  lemma SourceRow(row: nat, h: int, pitch: nat)
    requires row < h
    ensures 0 <= row * pitch <= (h - 1) * pitch
  {
    MulMonotone(0, row, pitch);
    MulMonotone(row, h - 1, pitch);
  }

  lemma MulSum(a: int, b: int, d: int)
    ensures (a + b) * d == a * d + b * d
  {
  }

  lemma RowDrawn(c: Config, start: seq<Byte>, f: Frame, target: nat, row: nat, before: seq<Byte>, after: seq<Byte>, to: int)
    requires c.Valid() && f.Fits(c) && f.Backed() && target < c.buffers && row < f.h
    requires to == (target * c.height + f.y + row) * c.Pitch() + 4 * f.x
    requires before == Drawn(c, start, f, target, row) && |after| == |before|
    requires row * f.pitchBytes + f.w * 4 <= |f.buf|
    requires forall p | 0 <= p < |after| ::
               after[p] == if to <= p < to + f.w * 4 then f.buf[row * f.pitchBytes + (p - to)] else before[p]
    ensures after == Drawn(c, start, f, target, row + 1)
  {
    forall p | 0 <= p < |after|
      ensures after[p] == Drawn(c, start, f, target, row + 1)[p]
    {
      RowSpan(p, c.Pitch(), target * c.height + f.y + row, 4 * f.x, 4 * f.x + 4 * f.w);
      if to <= p < to + f.w * 4 {
        RowSource(f, c, target, row, p, to);
      }
    }
  }

  /** Within a row the source runs along with the destination. */
  lemma RowSource(f: Frame, c: Config, target: nat, row: int, p: int, to: int)
    requires c.Valid() && p / c.Pitch() == target * c.height + f.y + row
    requires to == (target * c.height + f.y + row) * c.Pitch() + 4 * f.x
    ensures f.SourceOf(c, target, p) == row * f.pitchBytes + (p - to)
  {
    assert p == (p / c.Pitch()) * c.Pitch() + p % c.Pitch();
  }
}
