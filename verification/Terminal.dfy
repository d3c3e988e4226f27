/** What text does to a screen of two wide rows: the terminal that the LCD driver implements, without panel,
    scrolling or timer. */
module Terminal {
  import opened Base

  const HEIGHT: nat := 2
  const VIRTUAL_WIDTH: nat := 80
  const BLANK: Byte := 32
  const ESC: Byte := 27
  const BRACKET: Byte := 91
  const SEMICOLON: Byte := 59

  /** Cursor, escape sequence so far (-1 for none), and text; each row has a spare column. */
  datatype Screen = Screen(x: nat, y: nat, esccount: int, escape: seq<Byte>, rows: seq<seq<Byte>>)
  {
    ghost predicate Sound() {
      x < 0x100 && y <= HEIGHT && -1 <= esccount <= 7 && |escape| == 8 && Rows(rows)
    }
  }

  /** The screen after power-up. */
  const RESET: Screen :=
    Screen(0, 0, -1, seq(8, _ => 0 as Byte), [Blanks(VIRTUAL_WIDTH + 1), Blanks(VIRTUAL_WIDTH + 1)])

  ghost predicate Rows(rows: seq<seq<Byte>>) {
    |rows| == HEIGHT && Row(rows[0]) && Row(rows[1])
  }

  /** A row of the screen; the spare column is blank. */
  ghost predicate Row(r: seq<Byte>) {
    |r| == VIRTUAL_WIDTH + 1 && r[VIRTUAL_WIDTH] == BLANK
  }

  function Blanks(n: nat): (s: seq<Byte>)
    ensures |s| == n && forall k :: 0 <= k < n ==> s[k] == BLANK
  {
    seq(n, _ => BLANK)
  }

  predicate IsDigit(c: Byte) {
    48 <= c <= 57
  }

  predicate IsPrint(c: Byte) {
    32 <= c <= 126
  }

  /** The number that starts at escape[k], and where it ends. */
  function Number(escape: seq<Byte>, k: nat, acc: nat): (r: (nat, nat))
    ensures r.1 >= k
    decreases |escape| - k
  {
    if k < |escape| && IsDigit(escape[k]) then Number(escape, k + 1, acc * 10 + (escape[k] - 48) as nat) else (acc, k)
  }

  datatype Parms = Parms(first: int, second: int)

  /** The parameters of an escape sequence; the first is -1 without a bracket. */
  function Parameters(escape: seq<Byte>): Parms
    requires |escape| == 8
  {
    if escape[0] != BRACKET then Parms(-1, 0)
    else
      var first := Number(escape, 1, 0);
      if first.1 < 8 && escape[first.1] == SEMICOLON then Parms(first.0, Number(escape, first.1 + 1, 0).0)
      else Parms(first.0, 0)
  }

  lemma {:induction false} NumberEnds(escape: seq<Byte>, k: nat, acc: nat, n: nat)
    requires k <= n < |escape| && escape[n] == 0
    ensures Number(escape, k, acc).1 <= n
    decreases n - k
  {
    if IsDigit(escape[k]) {
      NumberEnds(escape, k + 1, acc * 10 + (escape[k] - 48) as nat, n);
    }
  }

  /** A sequence of one character ends with anything but a bracket, a longer one with the first letter. */
  predicate Ends(count: int, c: Byte) {
    (count == 0 && c != BRACKET) || (count > 0 && !IsDigit(c) && c != SEMICOLON)
  }

  /** The rows after n lines went out at the top. */
  function Up(rows: seq<seq<Byte>>, n: nat): (r: seq<seq<Byte>>)
    requires Rows(rows)
    ensures Rows(r)
    decreases n
  {
    if n == 0 then rows else Up([rows[1], Blanks(VIRTUAL_WIDTH + 1)], n - 1)
  }

  /** Move to a row and column counted from 1; 0 leaves one as it is. Rows behind the last scroll, twice at most. */
  function MoveTo(t: Screen, p: Parms): (u: Screen)
    requires t.Sound()
    ensures u.Sound()
  {
    var x := if p.second > 0 then (p.second - 1) % 0x100 else t.x;
    var far := if p.first > 0 then (p.first - 1) % 0x100 else t.y;
    var y := if far > HEIGHT * 2 then HEIGHT * 2 else far;
    t.(x := x, y := if y > HEIGHT then HEIGHT else y, rows := Up(t.rows, if y > HEIGHT then y - HEIGHT else 0))
  }

  /** A finished escape sequence. Clearing to the end of the line behind the last row is outside the screen. */
  function Obey(t: Screen, c: Byte): (r: Option<Screen>)
    requires t.Sound()
    ensures r.Some? ==> r.value.Sound()
  {
    var p := Parameters(t.escape);
    if c == 72 || c == 102 then Some(MoveTo(t, p))
    else if c == 74 && p.first == 2 then
      Some(t.(x := 0, y := 0, rows := [Blanks(VIRTUAL_WIDTH + 1), Blanks(VIRTUAL_WIDTH + 1)]))
    else if c == 75 && p.first < 1 && t.x < VIRTUAL_WIDTH then
      if t.y == HEIGHT then None
      else Some(t.(rows := t.rows[t.y := t.rows[t.y][..t.x] + Blanks(VIRTUAL_WIDTH + 1 - t.x)]))
    else Some(t)
  }

  /** A printable character: text behind the second row scrolls first, text behind the last column is lost. */
  function Typed(t: Screen, c: Byte): (u: Screen)
    requires t.Sound()
    ensures u.Sound()
  {
    var y, rows := if t.y == HEIGHT then HEIGHT - 1 else t.y, Up(t.rows, if t.y == HEIGHT then 1 else 0);
    t.(x := (t.x + 1) % 0x100, y := y, rows := if t.x < VIRTUAL_WIDTH then rows[y := rows[y][t.x := c]] else rows)
  }

  /** One character of text. */
  function Put(t: Screen, c: Byte): (r: Option<Screen>)
    requires t.Sound()
    ensures r.Some? ==> r.value.Sound()
  {
    if t.esccount >= 0 then
      if Ends(t.esccount, c) then
        match Obey(t.(escape := t.escape[t.esccount := 0]), c)
        case None => None
        case Some(u) => Some(u.(esccount := -1))
      else if t.esccount < 7 then Some(t.(escape := t.escape[t.esccount := c], esccount := t.esccount + 1))
      else Some(t)
    else if c == ESC then Some(t.(esccount := 0))
    else if c == 13 then Some(t.(x := 0))
    else if c == 10 then
      if t.y == HEIGHT then Some(t.(x := 0, rows := Up(t.rows, 1))) else Some(t.(x := 0, y := t.y + 1))
    else if c == 8 then Some(if t.x > 0 then t.(x := t.x - 1) else t)
    else if IsPrint(c) then Some(Typed(t, c))
    else Some(t)
  }

  /** A text, character by character; None if it leaves the screen. */
  function PutAll(t: Screen, s: seq<Byte>): (r: Option<Screen>)
    requires t.Sound()
    ensures r.Some? ==> r.value.Sound()
  {
    if s == [] then Some(t)
    else
      match PutAll(t, s[..|s| - 1])
      case None => None
      case Some(u) => Put(u, s[|s| - 1])
  }

  lemma PutNext(t: Screen, s: seq<Byte>, n: nat)
    requires t.Sound() && n < |s| && PutAll(t, s[..n]).Some?
    ensures PutAll(t, s[..n + 1]) == Put(PutAll(t, s[..n]).value, s[n])
  {
    assert s[..n + 1][..n] == s[..n];
  }

  lemma {:induction false} PutJoin(t: Screen, a: seq<Byte>, b: seq<Byte>)
    requires t.Sound()
    ensures PutAll(t, a + b) == if PutAll(t, a).Some? then PutAll(PutAll(t, a).value, b) else None
    decreases |b|
  {
    hide Put;
    if b == [] {
      assert a + b == a;
    } else {
      PutJoin(t, a, b[..|b| - 1]);
      assert (a + b)[..|a + b| - 1] == a + b[..|b| - 1];
    }
  }

  /** A K that ends an escape sequence without a parameter above 0, with the cursor behind the second row and inside
      the columns. */
  predicate ClearsBehind(t: Screen, c: Byte)
    requires t.Sound()
  {
    && c == 75 && t.esccount >= 0 && Ends(t.esccount, c) && Parameters(t.escape[t.esccount := 0]).first < 1
    && t.x < VIRTUAL_WIDTH && t.y == HEIGHT
  }

  lemma PutLeaves(t: Screen, c: Byte)
    requires t.Sound()
    ensures Put(t, c).None? <==> ClearsBehind(t, c)
  {
    hide Parameters, Up, Typed, MoveTo;
  }

  /** The text up to its n-th character reaches a screen on which that character clears behind the second row. */
  predicate LeavesAt(t: Screen, s: seq<Byte>, n: nat)
    requires t.Sound()
  {
    n < |s| && PutAll(t, s[..n]).Some? && ClearsBehind(PutAll(t, s[..n]).value, s[n])
  }

  /** Exactly when a text leaves the screen. */
  lemma {:induction false} LeavesExactly(t: Screen, s: seq<Byte>)
    requires t.Sound()
    ensures PutAll(t, s).None? <==> exists n: nat :: LeavesAt(t, s, n)
    decreases |s|
  {
    hide ClearsBehind, Put;
    if PutAll(t, s).None? {
      var m := |s| - 1;
      if PutAll(t, s[..m]).None? {
        LeavesExactly(t, s[..m]);
        var n: nat :| LeavesAt(t, s[..m], n);
        assert s[..m][..n] == s[..n];
        assert LeavesAt(t, s, n);
      } else {
        PutLeaves(PutAll(t, s[..m]).value, s[m]);
        assert LeavesAt(t, s, m);
      }
    } else {
      forall n: nat | LeavesAt(t, s, n)
        ensures false
      {
        PutLeaves(PutAll(t, s[..n]).value, s[n]);
        PutNext(t, s, n);
        LeavesEarly(t, s, n + 1);
      }
    }
  }

  /** After a reset, two line feeds and ESC K leave the screen. */
  lemma ClearingLeaves()
    ensures PutAll(RESET, [10, 10, ESC, 75]).None?
  {
    var s: seq<Byte> := [10, 10, ESC, 75];
    hide PutAll, Obey, Up, Typed;
    Empty(RESET);
    PutNext(RESET, s, 0);
    PutNext(RESET, s, 1);
    PutNext(RESET, s, 2);
    PutNext(RESET, s, 3);
    var u := RESET.(y := HEIGHT, esccount := 0);
    assert PutAll(RESET, s[..3]) == Some(u);
    PutLeaves(u, 75);
    assert s[..4] == s;
  }

  /** So text without a K stays inside. */
  lemma StaysInside(t: Screen, s: seq<Byte>)
    requires t.Sound() && 75 !in s
    ensures PutAll(t, s).Some?
  {
    hide PutAll;
    LeavesExactly(t, s);
  }

  /** Printable text appears where the cursor is. */
  lemma {:induction false} TextAppears(t: Screen, s: seq<Byte>)
    requires t.Sound() && t.esccount == -1 && t.y < HEIGHT && t.x + |s| <= VIRTUAL_WIDTH
    requires forall k :: 0 <= k < |s| ==> IsPrint(s[k])
    ensures PutAll(t, s) ==
            Some(t.(x := t.x + |s|, rows := t.rows[t.y := t.rows[t.y][..t.x] + s + t.rows[t.y][t.x + |s|..]]))
    decreases |s|
  {
    var row := t.rows[t.y];
    if s == [] {
      assert row[..t.x] + s + row[t.x..] == row;
      assert t.rows[t.y := row] == t.rows;
    } else {
      hide Put;
      var n := |s| - 1;
      TextAppears(t, s[..n]);
      TypedNext(t, PutAll(t, s[..n]).value, s[..n], s[n]);
      assert s[..n] + [s[n]] == s;
    }
  }

  lemma TypedNext(t: Screen, u: Screen, s: seq<Byte>, c: Byte)
    requires t.Sound() && t.esccount == -1 && t.y < HEIGHT && t.x + |s| < VIRTUAL_WIDTH && IsPrint(c) && u.Sound()
    requires u == t.(x := t.x + |s|, rows := t.rows[t.y := t.rows[t.y][..t.x] + s + t.rows[t.y][t.x + |s|..]])
    ensures Put(u, c) ==
            Some(t.(x := t.x + |s| + 1,
                    rows := t.rows[t.y := t.rows[t.y][..t.x] + (s + [c]) + t.rows[t.y][t.x + |s| + 1..]]))
  {
    hide Obey;
    var row := t.rows[t.y];
    var a := row[..t.x] + s + row[t.x + |s|..];
    TypedAt(row, t.x, s, c);
    assert Put(u, c) == Some(Typed(u, c)) && Up(u.rows, 0) == u.rows && u.rows[t.y] == a;
    assert u.rows[t.y := a[t.x + |s| := c]] == t.rows[t.y := a[t.x + |s| := c]];
  }

  lemma TypedAt(row: seq<Byte>, x: nat, s: seq<Byte>, c: Byte)
    requires x + |s| < |row|
    ensures (row[..x] + s + row[x + |s|..])[x + |s| := c] == row[..x] + (s + [c]) + row[x + |s| + 1..]
  {
  }

  /** ESC [ row ; column H moves the cursor there, for one digit of row and up to two of column. The row behind the
      second is the last; rows further down move the text up, by two rows at most. */
  lemma CursorMoves(t: Screen, row: nat, column: nat)
    requires t.Sound() && t.esccount == -1 && 1 <= row <= 9 && 1 <= column < 100
    ensures var digits := [48 + (column / 10) as Byte, 48 + (column % 10) as Byte];
            var r := PutAll(t, [ESC, BRACKET, 48 + row as Byte, SEMICOLON] + digits + [72]);
            && r.Some? && r.value.x == column - 1 && r.value.y == (if row <= 3 then row - 1 else 2)
            && r.value.esccount == -1 && (row <= 3 ==> r.value.rows == t.rows)
            && (row > 3 ==> Shows(r.value.rows[1], []))
            && (row == 4 ==> r.value.rows[0] == t.rows[1]) && (row > 4 ==> Shows(r.value.rows[0], []))
  {
    hide PutAll, Put, Obey;
    var d0, d1, d2 := 48 + row as Byte, 48 + (column / 10) as Byte, 48 + (column % 10) as Byte;
    var s := [ESC, BRACKET, d0, SEMICOLON, d1, d2, 72];
    assert [ESC, BRACKET, d0, SEMICOLON] + [d1, d2] + [72] == s;
    var e := t.escape[0 := BRACKET][1 := d0][2 := SEMICOLON][3 := d1][4 := d2];
    Collected(t, s, e);
    PutNext(t, s, 6);
    assert s[..7] == s;
    Arrives(t.(escape := e, esccount := 5), row, column);
  }

  lemma Arrives(u: Screen, row: nat, column: nat)
    requires u.Sound() && u.esccount == 5 && 1 <= row <= 9 && 1 <= column < 100
    requires u.escape[0] == BRACKET && u.escape[1] == 48 + row as Byte && u.escape[2] == SEMICOLON
    requires u.escape[3] == 48 + (column / 10) as Byte && u.escape[4] == 48 + (column % 10) as Byte
    ensures var r := Put(u, 72);
            && r.Some? && r.value.x == column - 1 && r.value.y == (if row <= 3 then row - 1 else 2)
            && r.value.esccount == -1 && (row <= 3 ==> r.value.rows == u.rows)
            && (row > 3 ==> Shows(r.value.rows[1], []))
            && (row == 4 ==> r.value.rows[0] == u.rows[1]) && (row > 4 ==> Shows(r.value.rows[0], []))
  {
    hide Parameters;
    ReadBack(u.escape[5 := 0], row, column);
    var one := [u.rows[1], Blanks(VIRTUAL_WIDTH + 1)];
    assert Up(u.rows, 0) == u.rows && Up(u.rows, 1) == Up(one, 0) == one;
    assert Up(u.rows, 2) == Up(one, 1) == [one[1], Blanks(VIRTUAL_WIDTH + 1)];
  }

  lemma ReadBack(f: seq<Byte>, row: nat, column: nat)
    requires |f| == 8 && 1 <= row <= 9 && 1 <= column < 100
    requires f[0] == BRACKET && f[1] == 48 + row as Byte && f[2] == SEMICOLON
    requires f[3] == 48 + (column / 10) as Byte && f[4] == 48 + (column % 10) as Byte && f[5] == 0
    ensures Parameters(f) == Parms(row, column)
  {
    var d1, d2 := f[3], f[4];
    assert Number(f, 4, d1 as nat - 48) == Number(f, 5, column) by {
      assert (d1 as nat - 48) * 10 + (d2 as nat - 48) == column;
    }
    assert Number(f, 3, 0) == Number(f, 4, d1 as nat - 48);
    assert Number(f, 1, 0) == Number(f, 2, row) == (row, 2);
    assert Parameters(f) == Parms(row, column);
  }

  /** The sequence is kept while it comes in. */
  lemma Collected(t: Screen, s: seq<Byte>, e: seq<Byte>)
    requires t.Sound() && t.esccount == -1 && |s| == 7
    requires s[0] == ESC && s[1] == BRACKET && IsDigit(s[2]) && s[3] == SEMICOLON && IsDigit(s[4]) && IsDigit(s[5])
    requires e == t.escape[0 := s[1]][1 := s[2]][2 := s[3]][3 := s[4]][4 := s[5]]
    ensures PutAll(t, s[..6]) == Some(t.(escape := e, esccount := 5))
  {
    hide PutAll, Obey, Typed;
    Empty(t);
    PutNext(t, s, 0);
    PutNext(t, s, 1);
    PutNext(t, s, 2);
    PutNext(t, s, 3);
    PutNext(t, s, 4);
    PutNext(t, s, 5);
  }

  lemma Empty(t: Screen)
    requires t.Sound()
    ensures PutAll(t, []) == Some(t)
  {
  }

  /** Texts one after the other. */
  function Together(texts: seq<seq<Byte>>): seq<Byte>
  {
    if texts == [] then [] else Together(texts[..|texts| - 1]) + texts[|texts| - 1]
  }

  lemma {:induction false} LeftBehind(t: Screen, texts: seq<seq<Byte>>, n: nat)
    requires t.Sound() && n <= |texts| && PutAll(t, Together(texts[..n])).None?
    ensures PutAll(t, Together(texts)).None?
    decreases |texts| - n
  {
    hide PutAll;
    if n == |texts| {
      assert texts[..n] == texts;
    } else {
      assert texts[..n + 1][..n] == texts[..n];
      PutJoin(t, Together(texts[..n]), texts[n]);
      LeftBehind(t, texts, n + 1);
    }
  }

  /** Text that leaves the screen stays outside. */
  lemma {:induction false} LeavesEarly(t: Screen, s: seq<Byte>, n: nat)
    requires t.Sound() && n <= |s| && PutAll(t, s[..n]).None?
    ensures PutAll(t, s).None?
    decreases |s| - n
  {
    if n == |s| {
      assert s[..n] == s;
    } else {
      assert s[..n + 1][..n] == s[..n];
      LeavesEarly(t, s, n + 1);
    }
  }

  /** A row shows a text: its first 80 characters from the left, and blanks. */
  ghost predicate Shows(row: seq<Byte>, text: seq<Byte>)
  {
    |row| == 81 && forall k :: 0 <= k < 81 ==> row[k] == if k < |text| && k < 80 then text[k] else 32
  }

  predicate Printable(text: seq<Byte>)
  {
    |text| < 0x100 && forall k :: 0 <= k < |text| ==> 32 <= text[k] <= 126
  }

  /** Printable text replaces what was in its columns; behind column 80 it is lost. */
  lemma {:induction false} TextReplaces(t: Screen, s: seq<Byte>)
    requires t.Sound() && t.esccount == -1 && t.y < HEIGHT && t.x + |s| < 0x100 && Printable(s)
    ensures var r := PutAll(t, s);
            && r.Some? && r.value == t.(x := t.x + |s|, rows := r.value.rows)
            && r.value.rows[1 - t.y] == t.rows[1 - t.y]
            && forall k :: 0 <= k < 81 ==>
                 r.value.rows[t.y][k] == if t.x <= k < t.x + |s| && k < 80 then s[k - t.x] else t.rows[t.y][k]
    decreases |s|
  {
    hide Put;
    Empty(t);
    if s != [] {
      var n := |s| - 1;
      TextReplaces(t, s[..n]);
      PutNext(t, s, n);
      assert s[..n + 1] == s;
      OneTyped(PutAll(t, s[..n]).value, s[n]);
    }
  }

  lemma OneTyped(t: Screen, c: Byte)
    requires t.Sound() && t.esccount == -1 && t.y < HEIGHT && IsPrint(c) && t.x < 0xFF
    ensures var r := Put(t, c);
            && r.Some? && r.value == t.(x := t.x + 1, rows := r.value.rows)
            && r.value.rows[1 - t.y] == t.rows[1 - t.y]
            && r.value.rows[t.y] == if t.x < 80 then t.rows[t.y][t.x := c] else t.rows[t.y]
  {
    hide Obey;
    assert Up(t.rows, 0) == t.rows;
  }

  /** With the cursor behind the second row the first character moves that row up and starts a new one. */
  lemma TextScrolls(t: Screen, s: seq<Byte>)
    requires t.Sound() && t.esccount == -1 && t.y == HEIGHT && t.x == 0 && s != [] && Printable(s)
    ensures var r := PutAll(t, s);
            && r.Some? && r.value == t.(x := |s|, y := 1, rows := r.value.rows)
            && r.value.rows[0] == t.rows[1] && Shows(r.value.rows[1], s)
  {
    hide PutAll, Put;
    var first := ScrolledTyped(t, s[0]);
    Empty(t);
    PutNext(t, s, 0);
    assert s[..0] == [] && s[..1] == [s[0]];
    PutJoin(t, [s[0]], s[1..]);
    assert [s[0]] + s[1..] == s;
    TextReplaces(first, s[1..]);
  }

  lemma ScrolledTyped(t: Screen, c: Byte) returns (u: Screen)
    requires t.Sound() && t.esccount == -1 && t.y == HEIGHT && t.x == 0 && IsPrint(c)
    ensures u.Sound() && Put(t, c) == Some(u) && u == t.(x := 1, y := 1, rows := u.rows)
    ensures u.rows[0] == t.rows[1] && Shows(u.rows[1], [c])
  {
    hide Obey;
    u := Typed(t, c);
    assert Up(t.rows, 1) == [t.rows[1], Blanks(VIRTUAL_WIDTH + 1)];
  }

  /** Lines of text, each with its line feed. */
  function Lines(texts: seq<seq<Byte>>): seq<Byte>
  {
    if texts == [] then [] else Lines(texts[..|texts| - 1]) + texts[|texts| - 1] + [10]
  }

  /** Of any number of lines written to an empty screen, however long or empty they are, the last two are shown, and the
      cursor waits behind them without having scrolled. */
  lemma {:induction false} LastTwoLines(t: Screen, texts: seq<seq<Byte>>)
    requires t.Sound() && t.esccount == -1 && t.x == 0 && t.y == 0 && Shows(t.rows[0], []) && Shows(t.rows[1], [])
    requires forall n :: 0 <= n < |texts| ==> Printable(texts[n])
    ensures var r, n := PutAll(t, Lines(texts)), |texts|;
            && r.Some? && r.value == t.(x := 0, y := if n < 2 then n else 2, rows := r.value.rows)
            && Shows(r.value.rows[0], if n == 0 then [] else if n == 1 then texts[0] else texts[n - 2])
            && Shows(r.value.rows[1], if n < 2 then [] else texts[n - 1])
    decreases |texts|
  {
    hide PutAll, Put, Shows;
    if texts == [] {
      Empty(t);
    } else {
      var m := |texts| - 1;
      var before, text := Lines(texts[..m]), texts[m];
      LastTwoLines(t, texts[..m]);
      PutJoin(t, before, text);
      PutJoin(t, before + text, [10]);
      var u := PutAll(t, before).value;
      LineWritten(u, text);
    }
  }

  /** One more line, in the first, second or a new row. */
  lemma LineWritten(u: Screen, text: seq<Byte>)
    requires u.Sound() && u.esccount == -1 && u.x == 0 && Printable(text) && (u.y < HEIGHT ==> Shows(u.rows[u.y], []))
    ensures PutAll(u, text).Some?
    ensures var r := PutAll(PutAll(u, text).value, [10]);
            && r.Some? && r.value == u.(y := if u.y < 2 then u.y + 1 else 2, rows := r.value.rows)
            && (u.y == 1 ==> r.value.rows[0] == u.rows[0]) && (u.y == 2 ==> r.value.rows[0] == u.rows[1])
            && (u.y == 0 ==> Shows(r.value.rows[0], text) && r.value.rows[1] == u.rows[1])
            && (u.y > 0 ==> Shows(r.value.rows[1], text))
  {
    hide PutAll, Put;
    Empty(u);
    if u.y < HEIGHT {
      TextReplaces(u, text);
    } else if text != [] {
      TextScrolls(u, text);
    }
    LineFeed(PutAll(u, text).value);
  }

  /** A line feed goes to the next row, and moves the rows up only from behind the second. */
  lemma LineFeed(t: Screen)
    requires t.Sound() && t.esccount == -1
    ensures var r := PutAll(t, [10]);
            && r.Some? && r.value == t.(x := 0, y := if t.y < 2 then t.y + 1 else 2, rows := r.value.rows)
            && (t.y < 2 ==> r.value.rows == t.rows)
            && (t.y == 2 ==> r.value.rows[0] == t.rows[1] && Shows(r.value.rows[1], []))
  {
    hide PutAll, Obey, Typed;
    Empty(t);
    PutNext(t, [10], 0);
    assert [10 as Byte][..0] == [] && [10 as Byte][..1] == [10];
    assert Up(t.rows, 1) == [t.rows[1], Blanks(VIRTUAL_WIDTH + 1)];
  }

  /** A carriage return goes back to the first column: what follows is written over the beginning of the row. */
  lemma Overtypes(t: Screen, s: seq<Byte>)
    requires t.Sound() && t.esccount == -1 && t.y < HEIGHT && Printable(s)
    ensures var r := PutAll(t, [13] + s);
            && r.Some? && r.value == t.(x := |s|, rows := r.value.rows) && r.value.rows[1 - t.y] == t.rows[1 - t.y]
            && forall k :: 0 <= k < 81 ==> r.value.rows[t.y][k] == if k < |s| && k < 80 then s[k] else t.rows[t.y][k]
  {
    hide PutAll, Put;
    OneByOne(t, 13);
    Return(t);
    PutJoin(t, [13], s);
    TextReplaces(t.(x := 0), s);
  }

  lemma Return(t: Screen)
    requires t.Sound() && t.esccount == -1
    ensures Put(t, 13) == Some(t.(x := 0))
  {
  }

  lemma OneByOne(t: Screen, c: Byte)
    requires t.Sound()
    ensures PutAll(t, [c]) == Put(t, c)
  {
    hide Put, PutAll;
    Empty(t);
    PutNext(t, [c], 0);
    assert [c][..0] == [] && [c][..1] == [c];
  }

  /** So many backspaces go so many columns back, to the first at most, and change no text. */
  lemma {:induction false} Backspaces(t: Screen, n: nat)
    requires t.Sound() && t.esccount == -1
    ensures PutAll(t, seq(n, _ => 8 as Byte)) == Some(t.(x := if n < t.x then t.x - n else 0))
  {
    hide PutAll, Put;
    Empty(t);
    var s := seq(n, _ => 8 as Byte);
    if n > 0 {
      Backspaces(t, n - 1);
      assert s[..n - 1] == seq(n - 1, _ => 8 as Byte) && s[..n] == s;
      PutNext(t, s, n - 1);
      Back(t.(x := if n - 1 < t.x then t.x - (n - 1) else 0));
    }
  }

  lemma Back(t: Screen)
    requires t.Sound() && t.esccount == -1
    ensures Put(t, 8) == Some(t.(x := if t.x > 0 then t.x - 1 else 0))
  {
  }

  /** Every other control character, and every byte that is no ASCII character, is ignored. */
  lemma Ignored(t: Screen, c: Byte)
    requires t.Sound() && t.esccount == -1 && (c < 32 || c > 126) && c !in [8, 10, 13, 27]
    ensures Put(t, c) == Some(t)
  {
  }

  /** ESC K and ESC [ K clear the row from the cursor on and leave the cursor where it is; behind column 80 they do
      nothing. */
  lemma ClearsToEnd(t: Screen, bracket: bool)
    requires t.Sound() && t.esccount == -1 && (t.y < HEIGHT || t.x >= 80)
    ensures var r := PutAll(t, if bracket then [27, 91, 75] else [27, 75]);
            && r.Some? && r.value == t.(escape := r.value.escape, rows := r.value.rows)
            && (t.x >= 80 ==> r.value.rows == t.rows)
            && (t.x < 80 ==> r.value.rows[1 - t.y] == t.rows[1 - t.y] &&
                             forall k :: 0 <= k < 81 ==> r.value.rows[t.y][k] == if k < t.x then t.rows[t.y][k] else 32)
  {
    hide PutAll, Put, Obey, Parameters;
    var u := Escaped(t, bracket);
    var s: seq<Byte> := if bracket then [27, 91] else [27];
    OneByOne(u, 75);
    PutJoin(t, s, [75]);
    assert s + [75] == if bracket then [27, 91, 75] else [27, 75];
    Finished(u, 75);
    var e := u.escape[u.esccount := 0];
    NoParameter(e);
    ClearedRow(u.(escape := e));
  }

  lemma Escaped(t: Screen, bracket: bool) returns (u: Screen)
    requires t.Sound() && t.esccount == -1
    ensures u.Sound() && PutAll(t, if bracket then [27, 91] else [27]) == Some(u)
    ensures u == t.(esccount := if bracket then 1 else 0, escape := u.escape) && (bracket ==> u.escape[0] == 91)
  {
    hide PutAll, Obey;
    u := t.(esccount := 0);
    OneByOne(t, 27);
    if bracket {
      OneByOne(u, 91);
      PutJoin(t, [27], [91]);
      assert [27 as Byte] + [91] == [27, 91];
      u := u.(escape := u.escape[0 := 91], esccount := 1);
    }
  }

  lemma Finished(u: Screen, c: Byte)
    requires u.Sound() && u.esccount >= 0 && Ends(u.esccount, c)
    ensures var r := Obey(u.(escape := u.escape[u.esccount := 0]), c);
            Put(u, c) == if r.Some? then Some(r.value.(esccount := -1)) else None
  {
    hide Obey;
  }

  lemma NoParameter(e: seq<Byte>)
    requires |e| == 8 && (e[0] == 0 || (e[0] == 91 && e[1] == 0))
    ensures Parameters(e).first < 1
  {
  }

  lemma ClearedRow(t: Screen)
    requires t.Sound() && Parameters(t.escape).first < 1 && (t.y < HEIGHT || t.x >= 80)
    ensures var r := Obey(t, 75);
            && r.Some? && r.value == t.(rows := r.value.rows)
            && (t.x >= 80 ==> r.value.rows == t.rows)
            && (t.x < 80 ==> r.value.rows[1 - t.y] == t.rows[1 - t.y] &&
                             forall k :: 0 <= k < 81 ==> r.value.rows[t.y][k] == if k < t.x then t.rows[t.y][k] else 32)
  {
    hide Parameters, Up;
  }

  /** ESC [ 2 J clears the screen and goes to its beginning. */
  lemma ClearsScreen(t: Screen)
    requires t.Sound() && t.esccount == -1
    ensures var r := PutAll(t, [27, 91, 50, 74]);
            && r.Some? && r.value.x == 0 && r.value.y == 0 && r.value.esccount == -1
            && Shows(r.value.rows[0], []) && Shows(r.value.rows[1], [])
  {
    hide PutAll, Put, Obey, Parameters, Shows;
    var u := Escaped(t, true);
    OneByOne(u, 50);
    var e := u.escape[1 := 50];
    Collects(u, 50);
    PutJoin(t, [27, 91], [50]);
    assert [27 as Byte, 91] + [50] == [27, 91, 50];
    u := u.(escape := e, esccount := 2);
    OneByOne(u, 74);
    PutJoin(t, [27, 91, 50], [74]);
    assert [27 as Byte, 91, 50] + [74] == [27, 91, 50, 74];
    Finished(u, 74);
    ClearTwo(u.(escape := e[2 := 0]));
  }

  lemma Collects(u: Screen, c: Byte)
    requires u.Sound() && 0 <= u.esccount < 7 && !Ends(u.esccount, c)
    ensures Put(u, c) == Some(u.(escape := u.escape[u.esccount := c], esccount := u.esccount + 1))
  {
  }

  lemma ClearTwo(t: Screen)
    requires t.Sound() && t.escape[0] == 91 && t.escape[1] == 50 && t.escape[2] == 0
    ensures var r := Obey(t, 74);
            && r.Some? && r.value == t.(x := 0, y := 0, rows := r.value.rows)
            && Shows(r.value.rows[0], []) && Shows(r.value.rows[1], [])
  {
    assert Number(t.escape, 1, 0) == Number(t.escape, 2, 2) == (2, 2);
  }

  /** The column counter has eight bits: the 256th character of a row would stand in its first column again. */
  lemma ColumnWraps(t: Screen, c: Byte, d: Byte)
    requires t.Sound() && t.esccount == -1 && t.y < HEIGHT && t.x == 0xFF && IsPrint(c) && IsPrint(d)
    ensures var r := PutAll(t, [c, d]);
            && r.Some? && r.value.x == 1 && r.value.rows == t.rows[t.y := t.rows[t.y][0 := d]]
  {
    hide PutAll, Obey;
    OneByOne(t, c);
    assert Up(t.rows, 0) == t.rows;
    var u := t.(x := 0);
    OneByOne(u, d);
    PutJoin(t, [c], [d]);
    assert [c] + [d] == [c, d];
  }
}
