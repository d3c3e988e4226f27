/** The LCD terminal: text goes into a wide virtual screen, a shadow of the panel decides which cells are sent, and a
    timer scrolls and repaints while the foreground may be writing.

    Ticks() stands for timer interrupts at any point of the foreground. `pending` is how many are still to come; it
    may be any number, so what is proved holds for every finite prefix of every run. */
module Lcd {
  import opened Base
  import opened Terminal

  const WIDTH: nat := 16
  const CMD_CLEAR: nat := 0x01
  const CMD_WRITE_DATA: nat := 0x80
  /** How often in a row a busy panel is asked before it is given up. */
  const PATIENCE: nat := 1000000

  /** One line: the shadow of the panel, the text with a spare column, and how it scrolls. */
  datatype Line = Line(visible: seq<Byte>, data: seq<Byte>, width: nat, speed: nat)
  {
    ghost predicate Sound() {
      |visible| == WIDTH && |data| == VIRTUAL_WIDTH + 1 && data[VIRTUAL_WIDTH] == BLANK && width <= VIRTUAL_WIDTH + 1 &&
      speed <= 128
    }
  }

  /** A byte stored in a signed char. */
  function Signed8(v: int): (s: int)
    ensures -128 <= s < 128
  {
    var u := v % 256;
    if u < 128 then u else u - 256
  }

  function Wrapped(k: nat, width: nat): (j: nat)
    requires width > 0
    ensures j < width
  {
    k % width
  }

  function Offset(l: Line, pos: nat): (o: nat)
    ensures l.width > 0 ==> o < l.width
  {
    var o := (pos * l.speed) / 256;
    if o >= l.width then 0 else o
  }

  /** The character of a line that belongs into panel column x when the display has scrolled to pos. */
  function Shown(l: Line, pos: nat, x: nat): Byte
    requires 0 < l.width <= |l.data|
  {
    l.data[Wrapped(x + Offset(l, pos), l.width)]
  }

  /** Where the timer takes the scroll position. */
  function NextPos(pos: nat, max: int): (p: nat)
    ensures max <= 0 ==> p == 0
    ensures max > 0 ==> p < max
  {
    if pos + 1 >= max then 0 else pos + 1
  }

  function Moved(pos: nat, max: int, ticks: nat): nat
  {
    if ticks == 0 then pos else NextPos(Moved(pos, max, ticks - 1), max)
  }

  lemma {:induction false} MovedAdd(pos: nat, max: int, a: nat, b: nat)
    ensures Moved(Moved(pos, max, a), max, b) == Moved(pos, max, a + b)
  {
    if b > 0 {
      MovedAdd(pos, max, a, b - 1);
    }
  }

  /** Exactly when the scroll position is back where it was: after whole rounds. */
  lemma {:induction false} MovedRound(pos: nat, max: nat, ticks: nat)
    requires pos < max
    ensures Moved(pos, max, ticks) == Wrapped(pos + ticks, max)
    ensures Moved(pos, max, ticks) == pos <==> Wrapped(ticks, max) == 0
  {
    if ticks > 0 {
      MovedRound(pos, max, ticks - 1);
    }
    WrapNext(pos + ticks, max);
    WrapBack(pos, ticks, max);
    if ticks == 0 {
      WrapSmall(pos, max);
    }
  }

  lemma WrapSmall(k: nat, n: nat)
    requires k < n
    ensures Wrapped(k, n) == k
  {
  }

  lemma WrapNext(k: nat, n: nat)
    requires n > 0
    ensures k > 0 ==> Wrapped(k, n) == if Wrapped(k - 1, n) + 1 >= n then 0 else Wrapped(k - 1, n) + 1
  {
    if k > 0 {
      var q, r := (k - 1) / n, (k - 1) % n;
      assert k - 1 == n * q + r;
      if r + 1 < n {
        Divided(k, n, q, r + 1);
      } else {
        assert k == n * (q + 1);
        Divided(k, n, q + 1, 0);
      }
    }
  }

  lemma WrapBack(pos: nat, ticks: nat, n: nat)
    requires pos < n
    ensures Wrapped(pos + ticks, n) == pos <==> Wrapped(ticks, n) == 0
  {
    var q, r := ticks / n, ticks % n;
    assert ticks == n * q + r;
    if pos + r < n {
      Divided(pos + ticks, n, q, pos + r);
    } else {
      assert pos + ticks == n * (q + 1) + (pos + r - n);
      Divided(pos + ticks, n, q + 1, pos + r - n);
    }
  }

  lemma Divided(k: nat, n: nat, q: nat, r: nat)
    requires n > 0 && k == n * q + r && r < n
    ensures k % n == r
  {
    var p, s := k / n, k % n;
    assert k == n * p + s;
    if p < q {
      Spread(p, q, n);
      assert false;
    } else if q < p {
      Spread(q, p, n);
      assert false;
    }
  }

  lemma Spread(x: nat, y: nat, n: nat)
    requires x < y
    ensures n * x + n <= n * y
  {
    assert n * y == n * (x + 1) + n * (y - x - 1);
    assert n * (y - x - 1) >= 0;
  }

  /** A round of painting after which the position is the old one again was painted at that position exactly when the
      display does not scroll or whole rounds of ticks, mostly none, came before the snapshot. */
  lemma PaintedCurrent(pos: nat, max: int, early: nat, ticks: nat)
    requires early <= ticks && Moved(pos, max, ticks) == pos
    ensures Moved(pos, max, early) == pos <==> max <= 0 || Wrapped(early, max) == 0
  {
    if max <= 0 {
      if early > 0 {
        Still(pos, max, early);
        Still(pos, max, ticks);
      }
    } else if pos < max {
      MovedRound(pos, max, early);
    } else {
      if ticks > 0 {
        MovedBelow(pos, max, ticks);
        assert false;
      }
      WrapSmall(0, max);
    }
  }

  lemma Still(pos: nat, max: int, ticks: nat)
    requires max <= 0 && ticks > 0
    ensures Moved(pos, max, ticks) == 0
  {
  }

  lemma MovedBelow(pos: nat, max: nat, ticks: nat)
    requires max > 0 && ticks > 0
    ensures Moved(pos, max, ticks) < max
  {
  }

  /** The HD44780 controller: character memory, address counter and modes. */
  datatype Controller = Controller(ram: seq<Byte>, ac: nat, twoLines: bool, increment: bool, on: bool)
  {
    ghost predicate Valid() {
      |ram| == 0x80 && ac < 0x80
    }

    /** Set up the way the driver needs it. */
    predicate Ready() {
      twoLines && increment && on
    }
  }

  /** A command byte; the highest bit set tells which command it is. */
  function Commanded(c: Controller, command: nat): (d: Controller)
    requires c.Valid() && command < 0x100
    ensures d.Valid()
  {
    if command >= CMD_WRITE_DATA then c.(ac := command - CMD_WRITE_DATA)
    else if command >= 0x40 then c
    else if command >= 0x20 then c.(twoLines := command / 8 % 2 == 1)
    else if command >= 0x10 then c
    else if command >= 0x08 then c.(on := command / 4 % 2 == 1)
    else if command >= 0x04 then c.(increment := command / 2 % 2 == 1)
    else if command >= 0x02 then c.(ac := 0)
    else if command == CMD_CLEAR then c.(ram := Blanks(0x80), ac := 0, increment := true)
    else c
  }

  /** A data byte goes to the address counter, which moves on. */
  function Received(c: Controller, data: Byte): (d: Controller)
    requires c.Valid()
    ensures d.Valid()
  {
    c.(ram := c.ram[c.ac := data], ac := if c.increment then Advanced(c.ac, c.twoLines) else (c.ac + 0x7F) % 0x80)
  }

  /** In two-line mode the lines are 40 characters long and start at 0 and 0x40. */
  function Advanced(ac: nat, twoLines: bool): (next: nat)
    requires ac < 0x80
    ensures next < 0x80
  {
    if twoLines && ac == 0x27 then 0x40
    else if twoLines && ac == 0x67 then 0
    else if !twoLines && ac == 0x4F then 0
    else if ac == 0x7F then 0
    else ac + 1
  }

  class Panel {
    var state: Controller
    /** How often in a row it has said that it is busy. */
    ghost var busyReads: nat
    /** It has said that it is not busy, and was sent nothing since. */
    ghost var idle: bool
    /** All commands it was sent. */
    ghost var commands: seq<nat>

    ghost predicate Valid()
      reads this
    {
      state.Valid()
    }

    constructor ()
      ensures Valid() && busyReads == 0
    {
      state, busyReads, idle, commands := Controller(Blanks(0x80), 0, false, false, false), 0, false, [];
    }

    /** The panel may be busy whenever it is asked. */
    method Status() returns (busy: bool)
      requires Valid()
      modifies `busyReads, `idle
      ensures Valid() && idle == !busy && busyReads == if busy then old(busyReads) + 1 else 0
    {
      busy := *;
      busyReads, idle := if busy then busyReads + 1 else 0, !busy;
    }

    /** Before the third reset the panel cannot say whether it is busy. */
    method Reset(command: nat)
      requires Valid() && 0x20 <= command < 0x40
      modifies `state, `idle, `commands
      ensures Valid() && state == Commanded(old(state), command) && commands == old(commands) + [command]
    {
      state, idle, commands := Commanded(state, command), false, commands + [command];
    }

    method Command(command: nat)
      requires Valid() && idle && command < 0x100
      modifies `state, `idle, `commands
      ensures Valid() && state == Commanded(old(state), command) && commands == old(commands) + [command]
    {
      state, idle, commands := Commanded(state, command), false, commands + [command];
    }

    method Data(c: Byte)
      requires Valid() && idle
      modifies `state, `idle
      ensures Valid() && state == Received(old(state), c)
    {
      state, idle := Received(state, c), false;
    }
  }

  /** Where a cell is in character memory. */
  function Cell(y: nat, x: nat): nat {
    0x40 * y + x
  }

  class Display {
    const panel: Panel
    var broken: bool
    var x: nat
    var y: nat
    var address: nat
    var esccount: int
    var scrollpos: nat
    var scrollmax: int
    var active: bool
    var escape: seq<Byte>
    var line: seq<Line>
    /** Timer interrupts still to come, and how many came. */
    var pending: nat
    ghost var ticks: nat
    /** The scroll position of the last complete repaint. */
    ghost var shown: nat

    ghost predicate Lines()
      reads `line
    {
      |line| == HEIGHT && line[0].Sound() && line[1].Sound()
    }

    ghost predicate Sound()
      reads this, panel
    {
      && panel.Valid() && Lines()
      && x < 0x100 && |escape| == 8 && -1 <= esccount <= 7
      && scrollpos < 128 && -128 <= scrollmax < 128
    }

    /** The panel is given up exactly if it was busy a million times in a row. */
    ghost predicate Judged()
      reads `broken, panel
    {
      panel.busyReads == if broken then PATIENCE else 0
    }

    /** Unless the panel was given up: it is on, the shadow is what it shows, the address is its own. */
    ghost predicate Mirror()
      reads `broken, `address, `line, panel
    {
      Lines() && panel.Valid() && Judged() && address < 0x80 &&
      (!broken ==> panel.state.Ready() && panel.state.ac == address && Mirrored(panel.state.ram, line))
    }

    /** All lines are wide enough to paint. */
    predicate Wide()
      reads `line
    {
      |line| == HEIGHT && line[0].width >= WIDTH && line[1].width >= WIDTH
    }

    /** At rest. */
    ghost predicate Valid()
      reads this, panel
    {
      Sound() && Mirror() && y <= HEIGHT && !active && (scrollmax > 0 ==> Wide()) && (Wide() ==> Painted(line, shown))
    }

    constructor (panel: Panel, pending: nat)
      requires panel.Valid() && panel.busyReads == 0
      modifies panel
      ensures Valid() && this.panel == panel && !Wide() && this.pending == pending && scrollpos == 0 && scrollmax == 0
      ensures !broken ==> panel.commands == old(panel.commands) + [0x30, 0x30, 0x30, 0x38, 0x08, 0x01, 0x06, 0x0C]
      ensures esccount == -1 && x == 0 && y == 0 && TextOf(line) == [Blanks(VIRTUAL_WIDTH + 1), Blanks(VIRTUAL_WIDTH + 1)]
    {
      this.panel := panel;
      this.pending, ticks, shown := pending, 0, 0;
      broken, x, y, address, esccount := false, 0, 0, 0, -1;
      scrollpos, scrollmax, active := 0, 0, false;
      escape := seq(8, _ => 0);
      line := seq(HEIGHT, _ => Line(Blanks(WIDTH), Blanks(VIRTUAL_WIDTH + 1), 0, 0));
      new;
      Start();
    }

    /** Reset three times, two lines, display off, clear, increment, display on. */
    method Start()
      requires panel.Valid() && Judged() && Lines()
      modifies panel, `broken, `x, `y, `address, `line
      ensures Mirror() && x == 0 && y == 0 && line == Cleared(old(line))
      ensures !broken ==> panel.commands == old(panel.commands) + [0x30, 0x30, 0x30, 0x38, 0x08, 0x01, 0x06, 0x0C]
    {
      hide Blanks, Mirrored;
      panel.Reset(0x30);
      panel.Reset(0x30);
      panel.Reset(0x30);
      WriteCommand(0x38);
      WriteCommand(0x08);
      ClearScreen();
      WriteCommand(0x06);
      WriteCommand(0x0C);
    }

    /** lcd_clear_screen. */
    method ClearScreen()
      requires panel.Valid() && Judged() && Lines()
      modifies panel, `broken, `x, `y, `address, `line
      ensures x == 0 && y == 0 && (old(broken) ==> broken) && line == Cleared(old(line)) && Lines()
      ensures panel.Valid() && Judged() && address == 0
      ensures !broken ==> panel.state == Commanded(old(panel.state), CMD_CLEAR) && Mirrored(panel.state.ram, line)
      ensures !broken ==> panel.commands == old(panel.commands) + [CMD_CLEAR]
    {
      WriteCommand(CMD_CLEAR);
      x, y, address := 0, 0, 0;
      line := Cleared(line);
    }

    /** Wait until the panel is not busy, but not for ever. */
    method AwaitIdle()
      requires panel.Valid() && Judged() && !broken
      modifies panel`busyReads, panel`idle, `broken
      ensures panel.Valid() && Judged() && (!broken ==> panel.idle)
    {
      var i := PATIENCE;
      var busy := panel.Status();
      while busy
        invariant panel.Valid() && 0 < i <= PATIENCE && !broken && panel.idle == !busy
        invariant panel.busyReads == if busy then PATIENCE - i + 1 else 0
        decreases i, busy
      {
        i := i - 1;
        if i == 0 {
          broken := true;
          return;
        }
        busy := panel.Status();
      }
    }

    /** lcd_write_command. A panel that stays busy is given up. */
    method WriteCommand(command: nat)
      requires panel.Valid() && Judged() && command < 0x100
      modifies panel, `broken
      ensures panel.Valid() && Judged() && (old(broken) ==> broken)
      ensures panel.state == if broken then old(panel.state) else Commanded(old(panel.state), command)
      ensures !broken ==> panel.commands == old(panel.commands) + [command]
    {
      if broken {
        return;
      }
      AwaitIdle();
      if broken {
        return;
      }
      panel.Command(command);
    }

    /** lcd_write_data. */
    method WriteData(data: Byte)
      requires panel.Valid() && Judged() && address < 0x7F
      requires !broken ==> panel.state.Ready() && panel.state.ac == address && address != 0x27 && address != 0x67
      modifies panel, `broken, `address
      ensures panel.Valid() && Judged() && address < 0x80 && (old(broken) ==> broken)
      ensures !broken ==> panel.state == old(panel.state).(ram := old(panel.state).ram[old(address) := data], ac := address)
    {
      if broken {
        return;
      }
      AwaitIdle();
      if broken {
        return;
      }
      panel.Data(data);
      address := address + 1;
    }

    /** Send one cell if the panel shows something else. */
    method PaintCell(row: nat, col: nat, c: Byte)
      requires Mirror() && row < HEIGHT && col < WIDTH
      modifies panel, `broken, `address, `line
      ensures Mirror() && (old(broken) ==> broken)
      ensures line == old(line)[row := old(line)[row].(visible := old(line)[row].visible[col := c])]
    {
      if line[row].visible[col] != c {
        var cell := Cell(row, col);
        if cell != address {
          WriteCommand(CMD_WRITE_DATA + cell);
          address := cell;
        }
        WriteData(c);
        line := line[row := line[row].(visible := line[row].visible[col := c])];
      } else {
        assert line[row].visible[col := c] == line[row].visible;
      }
    }

    /** The next column of a line. */
    method PaintColumn(row: nat, col: nat, offset: nat, ghost pos: nat)
      requires Mirror() && row < HEIGHT && col < WIDTH && line[row].width > 0 && offset == Offset(line[row], pos)
      requires PaintedTo(line[row], pos, col)
      modifies panel, `broken, `address, `line
      ensures Mirror() && (old(broken) ==> broken)
      ensures line == old(line)[row := old(line)[row].(visible := line[row].visible)]
      ensures PaintedTo(line[row], pos, col + 1)
    {
      hide Mirrored, PaintedTo, Offset;
      PaintedNext(line[row], pos, col);
      PaintCell(row, col, line[row].data[Wrapped(col + offset, line[row].width)]);
    }

    /** One line of lcd_repaint_screen. */
    method PaintLine(row: nat, pos: nat, foreground: bool)
      requires Sound() && Mirror() && row < HEIGHT && line[row].width > 0 && (foreground ==> active)
      modifies panel, `broken, `address, `line, `scrollpos, `pending, `ticks, `shown
      ensures Sound() && Mirror() && (old(broken) ==> broken)
      ensures line == old(line)[row := old(line)[row].(visible := line[row].visible)] && PaintedTo(line[row], pos, WIDTH)
      ensures old(ticks) <= ticks && scrollpos == Moved(old(scrollpos), scrollmax, ticks - old(ticks))
      ensures pending + ticks == old(pending + ticks) && (!foreground ==> ticks == old(ticks))
      decreases if foreground then 3 else 0, 0
    {
      hide Mirrored, PaintedTo, Offset;
      var offset := Offset(line[row], pos);
      PaintedNone(line[row], pos);
      for col := 0 to WIDTH
        invariant Sound() && Mirror() && (old(broken) ==> broken)
        invariant line == old(line)[row := old(line)[row].(visible := line[row].visible)]
        invariant PaintedTo(line[row], pos, col) && offset == Offset(line[row], pos)
        invariant old(ticks) <= ticks && scrollpos == Moved(old(scrollpos), scrollmax, ticks - old(ticks))
        invariant pending + ticks == old(pending + ticks) && (!foreground ==> ticks == old(ticks))
      {
        PaintColumn(row, col, offset, pos);
        SameOffset(old(line)[row], line[row], pos);
        if foreground {
          Ticks(old(scrollpos), old(ticks));
        }
      }
    }

    /** lcd_repaint_screen, interrupted by ticks if it is the foreground that paints. */
    method Repaint(foreground: bool) returns (ghost before: nat)
      requires Sound() && Mirror() && Wide() && (foreground ==> active)
      modifies panel, `broken, `address, `line, `scrollpos, `pending, `ticks, `shown
      ensures Sound() && Mirror() && Wide() && (old(broken) ==> broken) && SameText(line, old(line)) && Painted(line, shown)
      ensures before <= ticks - old(ticks) && shown == Moved(old(scrollpos), scrollmax, before)
      ensures scrollpos == Moved(old(scrollpos), scrollmax, ticks - old(ticks))
      ensures pending + ticks == old(pending + ticks) && (!foreground ==> ticks == old(ticks))
      decreases if foreground then 3 else 0, 1
    {
      hide PaintedTo, Mirrored;
      if foreground {
        Ticks(scrollpos, ticks);
      }
      before := ticks - old(ticks);
      var pos := scrollpos;
      PaintLine(0, pos, foreground);
      MovedAdd(old(scrollpos), scrollmax, before, ticks - old(ticks) - before);
      ghost var between := ticks - old(ticks);
      PaintLine(1, pos, foreground);
      MovedAdd(old(scrollpos), scrollmax, between, ticks - old(ticks) - between);
      shown := pos;
    }

    /** Nothing the panel shows, or the driver thinks it shows, has changed. */
    twostate predicate Untouched()
      reads `line, `address, `broken, `shown, panel
    {
      && line == old(line) && address == old(address) && broken == old(broken) && shown == old(shown)
      && panel.state == old(panel.state)
    }

    /** Any number of timer interrupts while the foreground is active: they only move the scroll position. */
    method Ticks(ghost pos: nat, ghost since: nat)
      requires Sound() && Mirror() && active
      requires since <= ticks && scrollpos == Moved(pos, scrollmax, ticks - since)
      modifies panel, `broken, `address, `line, `scrollpos, `pending, `ticks, `shown
      ensures Sound() && Mirror() && Untouched() && old(ticks) <= ticks && pending + ticks == old(pending + ticks)
      ensures scrollpos == Moved(pos, scrollmax, ticks - since)
      decreases 2
    {
      hide Mirrored;
      var n: int := *;
      while n > 0 && pending > 0
        invariant Sound() && Mirror() && Untouched() && old(ticks) <= ticks && pending + ticks == old(pending + ticks)
        invariant scrollpos == Moved(pos, scrollmax, ticks - since)
        decreases pending
      {
        Timeout();
        n := n - 1;
      }
    }

    /** alt_lcd_16207_timeout. It leaves the panel to an active foreground; otherwise a display that scrolls shows its
        new position. */
    method Timeout()
      requires Sound() && Mirror() && pending > 0 && (active || scrollmax <= 0 || Wide())
      modifies panel, `broken, `address, `line, `scrollpos, `pending, `ticks, `shown
      ensures Sound() && Mirror() && SameText(line, old(line)) && (old(broken) ==> broken)
      ensures scrollpos == NextPos(old(scrollpos), scrollmax) && ticks == old(ticks) + 1 && pending == old(pending) - 1
      ensures active || scrollmax <= 0 ==> Untouched()
      ensures !active && scrollmax > 0 ==> Painted(line, shown) && shown == scrollpos
      decreases 1
    {
      hide Mirrored, Painted;
      ticks, pending := ticks + 1, pending - 1;
      scrollpos := if scrollpos + 1 >= scrollmax then 0 else scrollpos + 1;
      SameItself(line);
      if scrollmax > 0 && !active {
        ghost var before := Repaint(false);
      }
    }

    /** Any number of timer interrupts at rest. */
    method RestTicks(ghost pos: nat, ghost since: nat)
      requires Valid() && since <= ticks && scrollpos == Moved(pos, scrollmax, ticks - since)
      modifies panel, `broken, `address, `line, `scrollpos, `pending, `ticks, `shown
      ensures Valid() && SameText(line, old(line)) && Wide() == old(Wide()) && (old(broken) ==> broken)
      ensures old(ticks) <= ticks && pending + ticks == old(pending + ticks)
      ensures scrollpos == Moved(pos, scrollmax, ticks - since)
      ensures ticks == old(ticks) || scrollmax <= 0 ==> shown == old(shown)
      ensures ticks > old(ticks) && scrollmax > 0 ==> shown == scrollpos
    {
      hide Mirrored, PaintedTo, Painted, SameText;
      var n: int := *;
      SameItself(line);
      while n > 0 && pending > 0
        invariant Valid() && SameText(line, old(line)) && Wide() == old(Wide()) && (old(broken) ==> broken)
        invariant old(ticks) <= ticks && pending + ticks == old(pending + ticks)
        invariant scrollpos == Moved(pos, scrollmax, ticks - since)
        invariant ticks == old(ticks) || scrollmax <= 0 ==> shown == old(shown)
        invariant ticks > old(ticks) && scrollmax > 0 ==> shown == scrollpos
        decreases pending
      {
        ghost var l := line;
        Timeout();
        SameWidths(l, line);
        SameChain(old(line), l, line);
        n := n - 1;
      }
    }

    /** What the text loop keeps. */
    ghost predicate Writing()
      reads this, panel
    {
      Sound() && Mirror() && y <= HEIGHT && active
    }

    /** The terminal that the driver state stands for. */
    ghost function Text(): Screen
      requires |line| == HEIGHT
      reads `x, `y, `esccount, `escape, `line
    {
      Screen(x, y, esccount, escape, TextOf(line))
    }

    /** lcd_scroll_up. */
    method ScrollUp()
      requires Mirror() && y > 0
      modifies `line, `y
      ensures Mirror() && y == old(y) - 1 && TextOf(line) == Up(TextOf(old(line)), 1)
    {
      hide Mirrored;
      for k := 0 to HEIGHT
        invariant Lines() && y == old(y)
        invariant forall j :: 0 <= j < HEIGHT ==> line[j] == old(line)[j].(data := line[j].data)
        invariant k <= 1 ==> line[1] == old(line)[1]
        invariant k > 0 ==> line[0].data == old(line)[1].data
        invariant k > 1 ==> line[1].data == Blanks(VIRTUAL_WIDTH + 1)
      {
        if k < HEIGHT - 1 {
          line := line[k := line[k].(data := line[k + 1].data[..VIRTUAL_WIDTH] + line[k].data[VIRTUAL_WIDTH..])];
          assert line[k].data == old(line)[1].data;
        } else {
          line := line[k := line[k].(data := Blanks(VIRTUAL_WIDTH) + line[k].data[VIRTUAL_WIDTH..])];
          assert line[k].data == Blanks(VIRTUAL_WIDTH + 1);
        }
      }
      if !broken {
        MirrorKept(panel.state.ram, old(line), line);
      }
      y := y - 1;
    }

    /** Read a number out of the escape buffer. */
    method ReadNumber(start: nat, ghost n: nat) returns (value: nat, at: nat)
      requires |escape| == 8 && start <= n < 8 && escape[n] == 0
      ensures (value, at) == Number(escape, start, 0) && start <= at <= n
    {
      value, at := 0, start;
      NumberEnds(escape, start, 0, n);
      while IsDigit(escape[at])
        invariant start <= at <= n && Number(escape, start, 0) == Number(escape, at, value)
        decreases n - at
      {
        value := value * 10 + (escape[at] - 48) as nat;
        at := at + 1;
      }
    }

    method ReadParameters(ghost n: nat) returns (p: Parms)
      requires |escape| == 8 && n < 8 && escape[n] == 0
      ensures p == Parameters(escape)
    {
      var parm1: int, parm2: int := 0, 0;
      if escape[0] == BRACKET {
        var number, at := ReadNumber(1, n);
        parm1 := number;
        if escape[at] == SEMICOLON {
          number, at := ReadNumber(at + 1, n);
          parm2 := number;
        }
      } else {
        parm1 := -1;
      }
      p := Parms(parm1, parm2);
    }

    /** lcd_handle_escape; n is where the sequence ends. Clearing to the end of the line behind the last row would
        write outside the screen: that is reported, not done. */
    method HandleEscape(c: Byte, ghost n: nat) returns (inside: bool)
      requires Writing() && n < 8 && escape[n] == 0 && Text().Sound()
      modifies panel, `broken, `x, `y, `address, `line
      ensures Writing() && (old(broken) ==> broken)
      ensures inside == Obey(old(Text()), c).Some? && (inside ==> Text() == Obey(old(Text()), c).value)
    {
      hide Mirrored, Number, Parameters, Up;
      inside := true;
      var p := ReadParameters(n);
      if c == 72 || c == 102 {
        MoveCursor(p.first, p.second);
      } else if c == 74 {
        if p.first == 2 {
          ClearScreen();
          assert TextOf(line) == [Blanks(VIRTUAL_WIDTH + 1), Blanks(VIRTUAL_WIDTH + 1)];
        }
      } else if c == 75 {
        if p.first < 1 && x < VIRTUAL_WIDTH {
          if y == HEIGHT {
            return false;
          }
          ClearLine();
        }
      }
    }

    method MoveCursor(parm1: int, parm2: int)
      requires Writing() && Text().Sound()
      modifies `x, `y, `line
      ensures Writing() && Text() == MoveTo(old(Text()), Parms(parm1, parm2))
    {
      hide Mirrored;
      if parm2 > 0 {
        x := (parm2 - 1) % 0x100;
      }
      if parm1 > 0 {
        y := (parm1 - 1) % 0x100;
        if y > HEIGHT * 2 {
          y := HEIGHT * 2;
        }
        while y > HEIGHT
          invariant Sound() && Mirror() && active && x == (if parm2 > 0 then (parm2 - 1) % 0x100 else old(x))
          invariant y <= HEIGHT * 2 && Rows(TextOf(line))
          invariant (if y > HEIGHT then HEIGHT else y) == MoveTo(old(Text()), Parms(parm1, parm2)).y
          invariant Up(TextOf(line), if y > HEIGHT then y - HEIGHT else 0) == MoveTo(old(Text()), Parms(parm1, parm2)).rows
        {
          UpNext(TextOf(line), y - HEIGHT);
          ScrollUp();
        }
      }
    }

    /** Blank the line from the cursor on. */
    method ClearLine()
      requires Writing() && x < VIRTUAL_WIDTH && y < HEIGHT
      modifies `line
      ensures Writing()
      ensures TextOf(line) == TextOf(old(line))[y := old(line)[y].data[..x] + Blanks(VIRTUAL_WIDTH + 1 - x)]
    {
      hide Mirrored;
      ghost var data := line[y].data;
      line := line[y := line[y].(data := line[y].data[..x] + Blanks(VIRTUAL_WIDTH - x) + line[y].data[VIRTUAL_WIDTH..])];
      assert line[y].data == data[..x] + Blanks(VIRTUAL_WIDTH + 1 - x);
      if !broken {
        MirrorKept(panel.state.ram, old(line), line);
      }
    }

    /** One character of the text does to the state what it does to the terminal. */
    method PutChar(c: Byte) returns (inside: bool)
      requires Writing() && Text().Sound()
      modifies panel, `broken, `x, `y, `address, `line, `escape, `esccount
      ensures Writing() && (old(broken) ==> broken)
      ensures inside == Put(old(Text()), c).Some? && (inside ==> Text() == Put(old(Text()), c).value)
    {
      hide Mirrored, Parameters, Up, Obey, Typed;
      inside := true;
      if esccount >= 0 {
        if Ends(esccount, c) {
          escape := escape[esccount := 0];
          inside := HandleEscape(c, esccount);
          if inside {
            esccount := -1;
          }
        } else if esccount < 7 {
          escape := escape[esccount := c];
          esccount := esccount + 1;
        }
      } else if c == ESC {
        esccount := 0;
      } else if c == 13 {
        x := 0;
      } else if c == 10 {
        x := 0;
        y := y + 1;
        // The cursor may sit behind the last line without scrolling.
        if y > HEIGHT {
          ScrollUp();
        }
      } else if c == 8 {
        if x > 0 {
          x := x - 1;
        }
      } else if IsPrint(c) {
        Type(c);
      }
    }

    /** A printable character. */
    method Type(c: Byte)
      requires Writing() && IsPrint(c) && Text().Sound()
      modifies `x, `y, `line
      ensures Writing() && Text() == Typed(old(Text()), c)
    {
      hide Mirrored;
      if y >= HEIGHT {
        ScrollUp();
      }
      ghost var l := line;
      if x < VIRTUAL_WIDTH {
        line := line[y := line[y].(data := line[y].data[x := c])];
      }
      if !broken {
        MirrorKept(panel.state.ram, l, line);
      }
      x := (x + 1) % 0x100;
    }

    /** How wide the text of a line is, and the room it scrolls in. */
    static method TextWidth(data: seq<Byte>) returns (width: nat)
      requires |data| == VIRTUAL_WIDTH + 1 && data[VIRTUAL_WIDTH] == BLANK
      ensures forall l: Line :: l.data == data && l.width == width ==> Fitted(l)
      ensures WIDTH <= width <= VIRTUAL_WIDTH + 1
    {
      width := VIRTUAL_WIDTH;
      while width > 0 && data[width - 1] == BLANK
        invariant width <= VIRTUAL_WIDTH
        invariant forall k :: width <= k < VIRTUAL_WIDTH ==> data[k] == BLANK
      {
        width := width - 1;
      }
      if width <= WIDTH {
        width := WIDTH;
      } else {
        width := width + 1;
      }
    }

    /** Recalculate the scrolling parameters. */
    method Measure()
      requires Mirror()
      modifies `line, `scrollmax
      ensures Mirror() && Wide() && -128 <= scrollmax < 128
      ensures forall k :: 0 <= k < HEIGHT ==>
                Fitted(line[k]) && line[k] == old(line)[k].(width := line[k].width, speed := line[k].speed)
      ensures Scrolling(line, scrollmax)
    {
      hide Fitted, Mirrored, Speed;
      var widest := MeasureWidths();
      if widest <= WIDTH {
        scrollmax := 0;
      } else {
        scrollmax := Signed8(2 * widest);
        SetSpeeds(widest);
      }
      if !broken {
        MirrorKept(panel.state.ram, old(line), line);
      }
    }

    /** The widths of the lines, and the widest. */
    method MeasureWidths() returns (widest: nat)
      requires Lines()
      modifies `line
      ensures Lines() && widest == Widest(line)
      ensures forall j :: 0 <= j < HEIGHT ==>
                && Fitted(line[j]) && WIDTH <= line[j].width
                && line[j] == old(line)[j].(width := line[j].width, speed := 0)
    {
      hide Fitted;
      widest := WIDTH;
      for k := 0 to HEIGHT
        invariant Lines()
        invariant widest == if k == 0 then WIDTH else if k == 1 then line[0].width else Widest(line)
        invariant forall j :: k <= j < HEIGHT ==> line[j] == old(line)[j]
        invariant forall j :: 0 <= j < k ==>
                    && Fitted(line[j]) && WIDTH <= line[j].width
                    && line[j] == old(line)[j].(width := line[j].width, speed := 0)
      {
        var width := TextWidth(line[k].data);
        if widest < width {
          widest := width;
        }
        line := line[k := line[k].(width := width, speed := 0)];
      }
    }

    /** How fast each line goes so that all scrolls end together. */
    method SetSpeeds(widest: nat)
      requires Lines() && widest == Widest(line) > 0
      requires forall j :: 0 <= j < HEIGHT ==> Fitted(line[j]) && line[j].speed == 0
      modifies `line
      ensures Lines() && forall j :: 0 <= j < HEIGHT ==>
                           && Fitted(line[j]) && line[j].width <= widest
                           && line[j] == old(line)[j].(speed := if line[j].width > WIDTH then Speed(line[j].width, widest) else 0)
    {
      hide Fitted, Speed;
      for k := 0 to HEIGHT
        invariant Lines() && forall j :: 0 <= j < HEIGHT ==> line[j].width == old(line)[j].width <= widest
        invariant forall j :: k <= j < HEIGHT ==> line[j] == old(line)[j]
        invariant forall j :: 0 <= j < k ==>
                    && Fitted(line[j])
                    && line[j] == old(line)[j].(speed := if line[j].width > WIDTH then Speed(line[j].width, widest) else 0)
      {
        if line[k].width > WIDTH {
          var l := line[k].(speed := Speed(line[k].width, widest));
          SameFit(line[k], l);
          line := line[k := l];
        }
      }
    }

    /** The text loop: ticks may come between any two characters. */
    method PutText(text: seq<Byte>) returns (inside: bool)
      requires Writing()
      modifies panel, `broken, `x, `y, `address, `line, `escape, `esccount, `scrollpos, `pending, `ticks, `shown
      ensures Writing() && Text().Sound() && (old(broken) ==> broken) && pending + ticks == old(pending + ticks)
      ensures old(Text()).Sound() && (ticks == old(ticks) ==> scrollpos == old(scrollpos)) && ticks >= old(ticks)
      ensures inside == PutAll(old(Text()), text).Some? && (inside ==> Text() == PutAll(old(Text()), text).value)
    {
      hide Mirrored, Put, PutAll;
      inside := true;
      TextSound();
      Empty(Text());
      for i := 0 to |text|
        invariant Writing() && inside && pending + ticks == old(pending + ticks) && (old(broken) ==> broken)
        invariant ticks >= old(ticks) && (ticks == old(ticks) ==> scrollpos == old(scrollpos))
        invariant PutAll(old(Text()), text[..i]) == Some(Text())
      {
        Ticks(scrollpos, ticks);
        TextSound();
        PutNext(old(Text()), text, i);
        inside := PutChar(text[i]);
        if !inside {
          LeavesEarly(old(Text()), text, i + 1);
          TextSound();
          return;
        }
      }
      TextSound();
      assert text[..|text|] == text;
    }

    /** altera_avalon_lcd_16207_write. `early` ticks fell into the last round of painting before Repaint read the
        position, `late` ticks came when `active` was clear again. `inside` is false if the text cleared to the end of the
        line behind the last line. */
    method Write(text: seq<Byte>) returns (inside: bool, ghost early: nat, ghost late: nat)
      requires Valid()
      modifies panel, this
      ensures pending + ticks == old(pending + ticks) && (old(broken) && inside ==> broken)
      ensures inside ==> Valid() && Wide() && Scrolling(line, scrollmax) && forall k :: 0 <= k < HEIGHT ==> Fitted(line[k])
      ensures inside ==> early + late <= ticks - old(ticks) && (ticks == old(ticks) ==> scrollpos == old(scrollpos))
      ensures inside ==> (shown == scrollpos <==> scrollmax <= 0 || late > 0 || Wrapped(early, scrollmax) == 0)
      ensures inside == PutAll(old(Text()), text).Some? && (inside ==> Text() == PutAll(old(Text()), text).value)
    {
      hide Mirrored, PaintedTo, Painted, Fitted, Scrolling, Put, PutAll, SameText, TextOf, Wrapped;
      active := true;
      early, late := 0, 0;
      inside := PutText(text);
      if !inside {
        return;
      }
      early, late := Show();
    }

    /** Work out how the text scrolls and paint it. */
    method Show() returns (ghost early: nat, ghost late: nat)
      requires Writing()
      modifies panel, `broken, `address, `line, `scrollmax, `scrollpos, `pending, `ticks, `shown, `active
      ensures Valid() && Wide() && Scrolling(line, scrollmax) && (forall k :: 0 <= k < HEIGHT ==> Fitted(line[k]))
      ensures TextOf(line) == TextOf(old(line)) && (old(broken) ==> broken)
      ensures pending + ticks == old(pending + ticks) && early + late <= ticks - old(ticks)
      ensures ticks == old(ticks) ==> scrollpos == old(scrollpos)
      ensures shown == scrollpos <==> scrollmax <= 0 || late > 0 || Wrapped(early, scrollmax) == 0
    {
      hide Mirrored, PaintedTo, Painted, Fitted, Scrolling, SameText, TextOf, Wrapped;
      Ticks(scrollpos, ticks);
      ghost var done := line;
      Measure();
      SameData(done, line);
      ghost var measured := line;
      early, late := PaintUntilStill();
      SameMeasure(measured, line, scrollmax);
    }

    lemma TextSound()
      requires Sound() && y <= HEIGHT
      ensures Text().Sound()
    {
    }

    /** Paint until no tick moved the display meanwhile; the timer paints again as soon as `active` is cleared. */
    method PaintUntilStill() returns (ghost early: nat, ghost late: nat)
      requires Writing() && Wide()
      modifies panel, `broken, `address, `line, `scrollpos, `pending, `ticks, `shown, `active
      ensures Valid() && Wide() && SameText(line, old(line)) && (old(broken) ==> broken)
      ensures pending + ticks == old(pending + ticks) && early + late <= ticks - old(ticks)
      ensures ticks == old(ticks) ==> scrollpos == old(scrollpos)
      ensures shown == scrollpos <==> scrollmax <= 0 || late > 0 || Wrapped(early, scrollmax) == 0
    {
      hide Mirrored, PaintedTo, Painted, SameText;
      SameItself(line);
      while true
        invariant Writing() && Wide() && SameText(line, old(line)) && (old(broken) ==> broken)
        invariant pending + ticks == old(pending + ticks) && old(ticks) <= ticks
        invariant ticks == old(ticks) ==> scrollpos == old(scrollpos)
        decreases pending
      {
        ghost var l := line;
        var still;
        still, early, late := Round();
        SameChain(old(line), l, line);
        if still {
          return;
        }
        l := line;
        RestTicks(scrollpos, ticks);
        SameChain(old(line), l, line);
        active := true;
      }
    }

    /** One round: is the position at its end the one at its beginning? */
    method Round() returns (still: bool, ghost early: nat, ghost late: nat)
      requires Writing() && Wide()
      modifies panel, `broken, `address, `line, `scrollpos, `pending, `ticks, `shown, `active
      ensures Valid() && Wide() && SameText(line, old(line)) && (old(broken) ==> broken)
      ensures pending + ticks == old(pending + ticks) && early + late <= ticks - old(ticks)
      ensures ticks == old(ticks) ==> scrollpos == old(scrollpos)
      ensures still ==> (shown == scrollpos <==> scrollmax <= 0 || late > 0 || Wrapped(early, scrollmax) == 0)
      ensures !still ==> pending < old(pending)
    {
      hide Mirrored, PaintedTo, Painted, SameText;
      Ticks(scrollpos, ticks);
      var oldScrollpos := scrollpos;
      ghost var since := ticks;
      early := Repaint(true);
      ghost var cleared, l := ticks, line;
      active := false;
      RestTicks(oldScrollpos, since);
      SameChain(old(line), l, line);
      late := ticks - cleared;
      still := scrollpos == oldScrollpos;
      if still {
        PaintedCurrent(oldScrollpos, scrollmax, early, ticks - since);
      }
    }

    /** One round of that loop with these ticks: one before Repaint reads the position, and so many behind it that the
        scroll comes back to where it began. From any state that scrolls the round is the last one, and the panel is
        left at another position than the current one. */
    method StaleRound()
      requires Writing() && Wide() && 0 <= scrollpos < scrollmax && scrollmax > 1 && pending >= scrollmax
      modifies panel, `broken, `address, `line, `scrollpos, `pending, `ticks, `shown, `active
      ensures Valid() && Wide() && SameText(line, old(line)) && scrollpos == old(scrollpos)
      ensures ticks == old(ticks) + scrollmax && shown == NextPos(scrollpos, scrollmax) != scrollpos
    {
      hide Mirrored, PaintedTo, Painted, SameText;
      SameItself(line);
      var oldScrollpos := scrollpos;
      Timeout();
      ghost var l := line;
      ghost var early := Repaint(false);
      SameChain(old(line), l, line);
      for n := 1 to scrollmax
        invariant Writing() && Wide() && SameText(line, old(line)) && pending >= scrollmax - n
        invariant ticks == old(ticks) + n && scrollpos == Moved(oldScrollpos, scrollmax, n)
        invariant shown == NextPos(oldScrollpos, scrollmax) && Painted(line, shown)
      {
        Timeout();
      }
      WholeRound(oldScrollpos, scrollmax);
      active := false;
    }

    /** Once text was written, how it scrolls. */
    ghost predicate Measured()
      reads `line, `scrollmax
    {
      Wide() ==> Scrolling(line, scrollmax) && Fitted(line[0]) && Fitted(line[1])
    }

    /** Any run: texts are written, with ticks in them and between them. The terminal has got all of the texts, unless one
        left the screen. Each line of a working panel is the text at the painted position, turned round by that
        position times the speed over 256 columns; a position left from a longer text shows the beginning. */
    method Session(texts: seq<seq<Byte>>) returns (inside: bool)
      requires Valid() && Measured()
      modifies panel, this
      ensures inside == PutAll(old(Text()), Together(texts)).Some?
      ensures inside ==> Valid() && Measured() && Text() == PutAll(old(Text()), Together(texts)).value
      ensures inside && texts != [] ==> Wide()
      ensures inside ==> (broken <==> panel.busyReads == 1000000)
      ensures inside && Wide() ==>
                var widest := if line[0].width > line[1].width then line[0].width else line[1].width;
                && widest > 0
                && scrollmax == (if widest == 16 then 0 else if widest < 64 then 2 * widest else 2 * widest - 256)
                && forall k :: 0 <= k < 2 ==>
                     line[k].speed == if line[k].width > 16 then 256 * line[k].width / (2 * widest) else 0
      ensures inside && !broken && Wide() ==>
                && 0 < line[0].width <= |line[0].data| && 0 < line[1].width <= |line[1].data| && |panel.state.ram| == 0x80
                && (forall col :: 0 <= col < 16 ==>
                      var o := shown * line[0].speed / 256;
                      panel.state.ram[..16][col] == line[0].data[(col + if o >= line[0].width then 0 else o) % line[0].width])
                && (forall col :: 0 <= col < 16 ==>
                      var o := shown * line[1].speed / 256;
                      panel.state.ram[0x40..0x50][col] ==
                        line[1].data[(col + if o >= line[1].width then 0 else o) % line[1].width])
    {
      hide Mirrored, PaintedTo, Painted, Fitted, Scrolling, TextOf, PutAll, Together;
      inside := WriteAll(texts);
      if inside {
        Between();
        if Wide() {
          ScrollsAt(line, scrollmax);
          if !broken {
            CellsShown();
          }
        }
      }
    }

    /** One text after the other. */
    method WriteAll(texts: seq<seq<Byte>>) returns (inside: bool)
      requires Valid() && Measured()
      modifies panel, this
      ensures inside == PutAll(old(Text()), Together(texts)).Some?
      ensures inside ==> Valid() && Measured() && Text() == PutAll(old(Text()), Together(texts)).value
      ensures inside && texts != [] ==> Wide()
    {
      hide Mirrored, PaintedTo, Painted, Fitted, Scrolling, SameText, TextOf, PutAll;
      inside := true;
      TextSound();
      Empty(Text());
      for i := 0 to |texts|
        invariant inside && Valid() && Measured() && (i > 0 ==> Wide()) && old(Text()).Sound()
        invariant PutAll(old(Text()), Together(texts[..i])) == Some(Text())
      {
        Between();
        TextSound();
        assert texts[..i + 1][..i] == texts[..i];
        PutJoin(old(Text()), Together(texts[..i]), texts[i]);
        ghost var early, late;
        inside, early, late := Write(texts[i]);
        if !inside {
          LeftBehind(old(Text()), texts, i + 1);
          return;
        }
      }
      assert texts[..|texts|] == texts;
    }

    /** Ticks between two texts. */
    method Between()
      requires Valid() && Measured()
      modifies panel, `broken, `address, `line, `scrollpos, `pending, `ticks, `shown
      ensures Valid() && Measured() && Text() == old(Text()) && Wide() == old(Wide())
    {
      hide Mirrored, PaintedTo, Painted, Fitted, Scrolling, SameText, TextOf;
      RestTicks(scrollpos, ticks);
      if Wide() {
        SameMeasure(old(line), line, scrollmax);
      } else {
        SameTexts(old(line), line);
      }
    }

    /** Two ticks at rest. */
    method TwoTicks()
      requires Valid() && Wide() && scrollpos == 0 && scrollmax > 2
      modifies panel, `broken, `address, `line, `scrollpos, `pending, `ticks, `shown
      ensures Valid() && Wide() && SameText(line, old(line)) && scrollpos == 2 && shown == 2
    {
      hide Mirrored, PaintedTo, Painted, SameText;
      pending := 2;
      Timeout();
      SameWidths(old(line), line);
      ghost var l := line;
      Timeout();
      SameWidths(l, line);
      SameChain(old(line), l, line);
    }

    /** All 32 cells of a working panel show the text at the position that was painted. */
    lemma CellsShown()
      requires Valid() && Wide() && !broken
      ensures panel.state.Ready() && |panel.state.ram| == 0x80
      ensures 0 < line[0].width <= |line[0].data| && 0 < line[1].width <= |line[1].data|
      ensures forall col :: 0 <= col < 16 ==>
                var o := shown * line[0].speed / 256;
                panel.state.ram[..16][col] == line[0].data[(col + if o >= line[0].width then 0 else o) % line[0].width]
      ensures forall col :: 0 <= col < 16 ==>
                var o := shown * line[1].speed / 256;
                panel.state.ram[0x40..0x50][col] ==
                  line[1].data[(col + if o >= line[1].width then 0 else o) % line[1].width]
    {
      assert PaintedTo(line[0], shown, WIDTH) && PaintedTo(line[1], shown, WIDTH);
      forall col | 0 <= col < WIDTH
        ensures panel.state.ram[..16][col] == Shown(line[0], shown, col)
        ensures panel.state.ram[0x40..0x50][col] == Shown(line[1], shown, col)
      {
        hide Shown;
        assert panel.state.ram[Cell(0, col)] == line[0].visible[col] == Shown(line[0], shown, col);
        assert panel.state.ram[Cell(1, col)] == line[1].visible[col] == Shown(line[1], shown, col);
      }
    }
  }

  /** A run from power-up in which seventeen letters are written and two ticks later the first is gone. */
  method ScrollRun() returns (d: Display)
    ensures fresh(d) && d.Valid() && d.scrollpos == 2
    ensures !d.broken ==> |d.panel.state.ram| == 0x80
    ensures !d.broken ==> forall col :: 0 <= col < 16 ==> d.panel.state.ram[..16][col] == 66 + col
  {
    hide Mirrored, PaintedTo, Painted;
    d := Letters();
    ghost var l := d.line[0];
    d.TwoTicks();
    if !d.broken {
      d.CellsShown();
      assert d.line[0].data == l.data && d.line[0].width == 18 && d.line[0].speed == 128;
      assert forall col :: 0 <= col < 16 ==> d.panel.state.ram[..16][col] == l.data[col + 1];
    }
  }

  /** The text of that run, with no ticks yet. */
  method Letters() returns (d: Display)
    ensures fresh(d) && fresh(d.panel) && d.Valid() && d.Wide() && d.scrollpos == 0 && d.scrollmax == 36
    ensures d.line[0].width == 18 && d.line[0].speed == 128 && |d.line[0].data| == VIRTUAL_WIDTH + 1
    ensures forall k :: 0 <= k < 17 ==> d.line[0].data[k] == 65 + k
  {
    hide Mirrored, PaintedTo, Painted, SameText, Fitted, Scrolling, Speed, Put, PutAll, Typed;
    var panel := new Panel();
    d := new Display(panel, 0);
    var text := seq(WIDTH + 1, k requires 0 <= k <= WIDTH => (65 + k) as Byte);
    d.TextSound();
    TextAppears(d.Text(), text);
    var inside, early, late := d.Write(text);
    OneLongLine(d.line, text, d.scrollmax);
    ScrollsAt(d.line, d.scrollmax);
    assert d.line[0].data[..WIDTH + 1] == text;
  }

  /** A run from power-up after which the panel stays a position behind: 17 characters scroll. */
  method StaleRun() returns (d: Display)
    ensures fresh(d) && d.Valid() && d.Wide() && d.scrollmax == 36 && d.scrollpos == 0 && d.shown == 1
  {
    hide Mirrored, PaintedTo, Painted, SameText, Fitted, Scrolling, Speed;
    d := LongLine();
    d.Measure();
    OneLongLine(d.line, d.line[0].data[..WIDTH + 1], d.scrollmax);
    d.pending := d.scrollmax;
    d.StaleRound();
  }

  /** The text of that run, with no ticks yet. */
  method LongLine() returns (d: Display)
    ensures fresh(d) && fresh(d.panel) && d.Writing() && d.scrollpos == 0
    ensures var text := d.line[0].data[..WIDTH + 1];
            text[WIDTH] != BLANK && d.line[0].data == text + Blanks(VIRTUAL_WIDTH + 1)[|text|..] &&
            d.line[1].data == Blanks(VIRTUAL_WIDTH + 1)
  {
    hide Mirrored, PaintedTo, Painted, SameText, Put, PutAll, Typed;
    var panel := new Panel();
    d := new Display(panel, 0);
    d.active := true;
    var text := seq(WIDTH + 1, _ => 65 as Byte);
    d.TextSound();
    TextAppears(d.Text(), text);
    var inside := d.PutText(text);
  }

  /** A text of 17 characters in the first line scrolls in 18 columns. */
  lemma OneLongLine(line: seq<Line>, text: seq<Byte>, scrollmax: int)
    requires |line| == HEIGHT && Scrolling(line, scrollmax) && Fitted(line[0]) && Fitted(line[1])
    requires |text| == WIDTH + 1 && text[WIDTH] != BLANK
    requires line[0].data == text + Blanks(VIRTUAL_WIDTH + 1)[|text|..] && line[1].data == Blanks(VIRTUAL_WIDTH + 1)
    ensures scrollmax == 36 && line[0].width == 18 && line[1].width == 16
  {
    assert line[0].data[WIDTH] == text[WIDTH];
    assert line[0].width == WIDTH + 2 && line[1].width == WIDTH;
  }

  lemma WholeRound(pos: nat, max: nat)
    requires pos < max
    ensures Moved(pos, max, max) == pos
  {
    MovedRound(pos, max, max);
    Divided(max, max, 1, 0);
  }

  function Widest(line: seq<Line>): (w: nat)
    requires |line| == HEIGHT
    ensures w >= line[0].width && w >= line[1].width
  {
    if line[0].width > line[1].width then line[0].width else line[1].width
  }

  /** Lines that do not fit scroll, at speeds that let all of them end at the same time. */
  ghost predicate Scrolling(line: seq<Line>, scrollmax: int)
  {
    && |line| == HEIGHT
    && scrollmax == (if Widest(line) <= WIDTH then 0 else Signed8(2 * Widest(line)))
    && forall k :: 0 <= k < HEIGHT ==>
         line[k].speed == if line[k].width > WIDTH then Speed(line[k].width, Widest(line)) else 0
  }

  lemma SameFit(a: Line, b: Line)
    requires Fitted(a) && a.data == b.data && a.width == b.width
    ensures Fitted(b)
  {
  }

  lemma SameMeasure(a: seq<Line>, b: seq<Line>, scrollmax: int)
    requires |a| == HEIGHT && SameText(b, a) && Scrolling(a, scrollmax) && forall k :: 0 <= k < HEIGHT ==> Fitted(a[k])
    ensures Scrolling(b, scrollmax) && TextOf(b) == TextOf(a) && forall k :: 0 <= k < HEIGHT ==> Fitted(b[k])
  {
    hide Fitted;
    forall k | 0 <= k < HEIGHT
      ensures Fitted(b[k])
    {
      SameFit(a[k], b[k]);
    }
  }

  lemma SameData(a: seq<Line>, b: seq<Line>)
    requires |a| == HEIGHT && |b| == HEIGHT && forall k :: 0 <= k < HEIGHT ==> a[k].data == b[k].data
    ensures TextOf(a) == TextOf(b)
  {
  }

  lemma MirrorKept(ram: seq<Byte>, a: seq<Line>, b: seq<Line>)
    requires |ram| == 0x80 && Mirrored(ram, a) && |a| == |b|
    requires forall k :: 0 <= k < |a| ==> a[k].visible == b[k].visible
    ensures Mirrored(ram, b)
  {
  }

  lemma SameOffset(a: Line, b: Line, pos: nat)
    requires b == a.(visible := b.visible)
    ensures Offset(a, pos) == Offset(b, pos)
  {
  }

  lemma PaintedNone(l: Line, pos: nat)
    requires l.Sound() && l.width > 0
    ensures PaintedTo(l, pos, 0)
  {
  }

  lemma PaintedNext(l: Line, pos: nat, n: nat)
    requires l.Sound() && n < WIDTH && PaintedTo(l, pos, n)
    ensures PaintedTo(l.(visible := l.visible[n := Shown(l, pos, n)]), pos, n + 1)
    ensures 0 < l.width <= |l.data| && Shown(l, pos, n) == l.data[Wrapped(n + Offset(l, pos), l.width)]
  {
    hide Offset, Wrapped;
    var m := l.(visible := l.visible[n := Shown(l, pos, n)]);
    forall x | 0 <= x < n + 1
      ensures m.visible[x] == Shown(m, pos, x)
    {
      SameShown(l, m, pos, x);
    }
  }

  /** What belongs into a cell does not depend on what is there. */
  lemma SameShown(l: Line, m: Line, pos: nat, x: nat)
    requires 0 < l.width <= |l.data| && m == l.(visible := m.visible)
    ensures Shown(m, pos, x) == Shown(l, pos, x)
  {
  }

  lemma SameItself(a: seq<Line>)
    ensures SameText(a, a)
  {
  }

  lemma SameTexts(a: seq<Line>, b: seq<Line>)
    requires |a| == HEIGHT && SameText(b, a)
    ensures |b| == HEIGHT && TextOf(b) == TextOf(a)
  {
  }

  lemma SameWidths(a: seq<Line>, b: seq<Line>)
    requires |a| == HEIGHT && SameText(b, a)
    ensures |b| == HEIGHT && b[0].width == a[0].width && b[1].width == a[1].width
  {
  }

  lemma SameChain(a: seq<Line>, b: seq<Line>, c: seq<Line>)
    requires SameText(b, a) && SameText(c, b)
    ensures SameText(c, a)
  {
  }

  /** Two screens with the same text and the same scrolling. */
  ghost predicate SameText(a: seq<Line>, b: seq<Line>)
  {
    |a| == |b| && forall y :: 0 <= y < |a| ==> a[y] == b[y].(visible := a[y].visible)
  }

  /** The text of the lines. */
  function TextOf(line: seq<Line>): (rows: seq<seq<Byte>>)
    requires |line| == HEIGHT
  {
    [line[0].data, line[1].data]
  }

  lemma UpNext(rows: seq<seq<Byte>>, n: nat)
    requires Rows(rows) && n > 0
    ensures Up(rows, n) == Up(Up(rows, 1), n - 1)
  {
    assert Up(rows, 1) == Up([rows[1], Blanks(VIRTUAL_WIDTH + 1)], 0);
  }

  function Cleared(line: seq<Line>): (c: seq<Line>)
    requires |line| == HEIGHT
    ensures |c| == HEIGHT && forall k :: 0 <= k < HEIGHT ==>
              c[k] == Line(Blanks(WIDTH), Blanks(VIRTUAL_WIDTH + 1), 0, line[k].speed)
  {
    seq(HEIGHT, k requires 0 <= k < HEIGHT => Line(Blanks(WIDTH), Blanks(VIRTUAL_WIDTH + 1), 0, line[k].speed))
  }

  /** The width of a line and what it promises: all text is inside, and a line that scrolls has one blank between
      its end and its beginning. */
  ghost predicate Fitted(l: Line)
  {
    && |l.data| == VIRTUAL_WIDTH + 1 && WIDTH <= l.width <= VIRTUAL_WIDTH + 1
    && (forall k :: l.width <= k < VIRTUAL_WIDTH ==> l.data[k] == BLANK)
    && (l.width > WIDTH ==> l.data[l.width - 1] == BLANK && l.data[l.width - 2] != BLANK)
  }

  function Speed(width: nat, max: nat): (s: nat)
    requires width <= max && max > 0
    ensures s <= 128
  {
    SpeedBound(width, max);
    Quotient(256 * width, 2 * max)
  }

  function Quotient(x: nat, d: nat): nat
    requires d > 0
  {
    x / d
  }

  lemma SpeedBound(width: nat, max: nat)
    requires width <= max && max > 0
    ensures Quotient(256 * width, 2 * max) <= 128
  {
    QuotientBelow(256 * width, 2 * max, 129);
  }

  lemma QuotientBelow(x: nat, d: nat, k: nat)
    requires d > 0 && x < d * k
    ensures Quotient(x, d) < k
  {
    var q, r := x / d, x % d;
    assert x == d * q + r;
    if k < q {
      Spread(k, q, d);
      assert false;
    }
  }

  /** While a line scrolls its offset stays inside it, for every position up to the longest line's. */
  lemma OffsetInside(width: nat, max: nat, pos: nat)
    requires 0 < width <= max && pos < 2 * max
    ensures pos * Speed(width, max) / 256 < width
  {
    hide Quotient;
    var s, gap := Speed(width, max), 2 * max - pos;
    Division(256 * width, 2 * max);
    Distribute(pos, gap, s);
    Zero(pos, s);
  }

  /** A line that scrolls, over one scroll: its offset follows the position at the line's speed, starts at the first
      column, never steps back, never skips a column, and ends at the last column, the blank one, however much shorter
      than the longest line it is. */
  lemma ScrollCourse(l: Line, widest: nat, pos: nat)
    requires WIDTH < l.width <= widest < 64 && l.speed == 256 * l.width / (2 * widest) && pos < 2 * widest
    ensures 256 * Offset(l, pos) <= pos * l.speed < 256 * (Offset(l, pos) + 1)
    ensures pos == 0 ==> Offset(l, pos) == 0
    ensures pos + 1 < 2 * widest ==> Offset(l, pos) <= Offset(l, pos + 1) <= Offset(l, pos) + 1
    ensures pos + 1 == 2 * widest ==> Offset(l, pos) == l.width - 1
  {
    OffsetFollows(l, widest, pos);
    SpeedBound(l.width, widest);
    Product(pos, l.speed);
    if pos + 1 < 2 * widest {
      OffsetFollows(l, widest, pos + 1);
    } else {
      LastColumn(l.width, widest);
    }
  }

  lemma OffsetFollows(l: Line, widest: nat, pos: nat)
    requires WIDTH < l.width <= widest && l.speed == 256 * l.width / (2 * widest) && pos < 2 * widest
    ensures 256 * Offset(l, pos) <= pos * l.speed < 256 * (Offset(l, pos) + 1)
  {
    OffsetInside(l.width, widest, pos);
  }

  lemma Product(pos: nat, speed: nat)
    ensures (pos + 1) * speed == pos * speed + speed && (pos == 0 ==> pos * speed == 0)
  {
  }

  lemma LastColumn(width: nat, widest: nat)
    requires 0 < width <= widest < 64
    ensures (2 * widest - 1) * (256 * width / (2 * widest)) >= 256 * (width - 1)
  {
    var s := 256 * width / (2 * widest);
    SpeedBound(width, widest);
    Product(2 * widest - 1, s);
    assert 256 * width == 2 * widest * s + 256 * width % (2 * widest);
  }

  /** The speeds and the range in figures. */
  lemma ScrollsAt(line: seq<Line>, scrollmax: int)
    requires Scrolling(line, scrollmax) && Fitted(line[0]) && Fitted(line[1])
    ensures var widest := if line[0].width > line[1].width then line[0].width else line[1].width;
            && WIDTH <= widest <= VIRTUAL_WIDTH + 1
            && scrollmax == (if widest == WIDTH then 0 else if widest < 64 then 2 * widest else 2 * widest - 256)
            && forall k :: 0 <= k < HEIGHT ==>
                 line[k].speed == if line[k].width > WIDTH then 256 * line[k].width / (2 * widest) else 0
  {
  }

  lemma Zero(x: nat, y: nat)
    ensures y == 0 ==> x * y == 0
  {
  }

  lemma Distribute(x: nat, y: nat, z: nat)
    requires y > 0
    ensures (x + y) * z == x * z + y * z && y * z >= z
  {
    assert y * z == z + (y - 1) * z;
  }

  lemma Division(x: nat, d: nat)
    requires d > 0
    ensures d * Quotient(x, d) <= x
  {
  }

  /** The scroll range is kept in a signed char: text of 63 columns or more does not scroll at all. */
  lemma LongTextStands(max: nat)
    requires WIDTH < max <= VIRTUAL_WIDTH + 1
    ensures Signed8(2 * max) <= 0 <==> max >= 64
  {
  }

  predicate Mirrored(ram: seq<Byte>, line: seq<Line>)
    requires |ram| == 0x80
  {
    forall y, x :: 0 <= y < |line| <= HEIGHT && 0 <= x < |line[y].visible| <= WIDTH ==> ram[Cell(y, x)] == line[y].visible[x]
  }

  /** Every cell shows what belongs there at a scroll position. */
  ghost predicate Painted(line: seq<Line>, pos: nat)
  {
    forall y :: 0 <= y < |line| ==> PaintedTo(line[y], pos, WIDTH)
  }

  ghost predicate PaintedTo(l: Line, pos: nat, n: nat)
  {
    && 0 < l.width <= |l.data| && n <= |l.visible|
    && forall x :: 0 <= x < n ==> l.visible[x] == Shown(l, pos, x)
  }
}
