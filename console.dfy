/** The console driver (kernel/chr_drv/console.c) as the object its
    statics make up: the cursor x, y and its cell pos, the scrolling region
    top and bottom, origin and scr_end, the escape parser's state, npar,
    par and ques, the attribute, the saved cursor, and video memory as an
    array of cells. Every method is proved to do what the function of the
    same name in ConsoleSpec does to View(). */
module Console {
  import opened Driver
  import opened TtyQueue
  import opened TtyIo
  import opened ConsoleSpec

  /** The cell a forward copy reads next is still the one of v. */
  lemma MoveStep(v: seq<int>, src: int, dst: int, i: int)
    requires 0 <= dst <= src && 0 <= i && src + i + 1 <= |v|
    ensures Move(v, src, dst, i)[src + i] == v[src + i]
  {
    MoveAt(v, src, dst, i, src + i);
  }

  /** A backward copy that has done the cells from dst + i up is Move. */
  lemma MoveBack(v: seq<int>, w: seq<int>, src: int, dst: int, n: int)
    requires 0 <= src <= dst && 0 <= n && dst + n <= |v| == |w|
    requires forall k {:trigger w[k]} :: 0 <= k < |v| ==> w[k] == if dst <= k < dst + n then v[k - dst + src] else v[k]
    ensures w == Move(v, src, dst, n)
  {
    forall k | 0 <= k < |v|
      ensures w[k] == Move(v, src, dst, n)[k]
    {
      MoveAt(v, src, dst, n, k);
    }
  }

  /** One turn of insert_char's loop: the carried cell goes in at p + j. */
  lemma InsertStep(v: seq<int>, p: int, j: int, e: int)
    requires 0 <= p && 0 <= j && p + j + 1 <= |v|
    ensures InsertAt(v, p, j, e)[p + j] == v[p + j]
    ensures InsertAt(v, p, j + 1, e) == InsertAt(v, p, j, e)[p + j := if j == 0 then e else v[p + j - 1]]
  {
    if j > 0 {
      MoveAt(v, p, p + 1, j - 1, p + j);
    }
  }

  class Screen {
    const g: Video
    var x: int
    var y: int
    var pos: int
    var top: int
    var bottom: int
    var origin: int
    var scrEnd: int
    var state: int
    var npar: int
    var ques: bool
    var attr: int
    var savedX: int
    var savedY: int
    const par: array<int>
    const video: array<int>

    ghost function View(): Scr
      reads this, par, video
    {
      Scr(x, y, top, bottom, origin, state, npar, par[..], ques, attr, savedX, savedY, video[..])
    }

    ghost predicate Valid()
      reads this, par, video
    {
      par != video && ScrOk(g, View()) && pos == Pos(g, View()) && scrEnd == ScrEnd(g, View())
    }

    /** The n cells from src copied forward to dst (the rep movsl of scrup). */
    method CopyForward(src: int, dst: int, n: int)
      requires 0 <= dst <= src && 0 <= n && src + n <= video.Length
      modifies video
      ensures video[..] == Move(old(video[..]), src, dst, n)
    {
      ghost var v := video[..];
      for i := 0 to n
        invariant video[..] == Move(v, src, dst, i)
      {
        MoveStep(v, src, dst, i);
        video[dst + i] := video[src + i];
      }
    }

    /** The n cells from src copied backward to dst (the std; rep movsl of
        scrdown). */
    method CopyBackward(src: int, dst: int, n: int)
      requires 0 <= src <= dst && 0 <= n && dst + n <= video.Length
      modifies video
      ensures video[..] == Move(old(video[..]), src, dst, n)
    {
      ghost var v := video[..];
      var i := n;
      while i > 0
        invariant 0 <= i <= n
        invariant forall k {:trigger video[k]} :: 0 <= k < video.Length ==> video[k] == if dst + i <= k < dst + n then v[k - dst + src] else v[k]
      {
        i := i - 1;
        video[dst + i] := video[src + i];
      }
      MoveBack(v, video[..], src, dst, n);
    }

    /** n cells from at set to e (rep stosw). */
    method FillCells(at: int, n: int, e: int)
      requires 0 <= at && 0 <= n && at + n <= video.Length
      modifies video
      ensures video[..] == Fill(old(video[..]), at, n, e)
    {
      ghost var v := video[..];
      for i := 0 to n
        invariant video[..] == Fill(v, at, i, e)
      {
        video[at + i] := e;
      }
    }

    /** gotoxy */
    method Gotoxy(newX: int, newY: int)
      requires Valid()
      modifies this
      ensures Valid() && View() == ConsoleSpec.Gotoxy(g, old(View()), newX, newY)
    {
      var nx, ny := Unsigned(newX), Unsigned(newY);
      if nx > g.columns || ny >= LINES {
        return;
      }
      x, y := nx, ny;
      pos := origin + Span(g.columns, y) + x;
    }

    /** scrup */
    method ScrUp()
      requires Valid()
      modifies this, video
      ensures Valid() && View() == ConsoleSpec.ScrUp(g, old(View()))
    {
      if g.ega && top == 0 && bottom == LINES {
        ScrUpScreen();
      } else {
        ScrUpRegion();
      }
    }

    /** scrup on an EGA/VGA with the whole screen as the region. */
    method ScrUpScreen()
      requires Valid() && g.ega && top == 0 && bottom == LINES
      modifies this, video
      ensures Valid() && View() == ConsoleSpec.ScrUp(g, old(View()))
    {
      Rows(g, LINES - 1, LINES);
      if scrEnd + g.columns > video.Length {
        ScrUpWrap();
      } else {
        ScrUpSlide();
      }
    }

    /** scrup when the screen moved down a line would pass the end of the
        video memory: the lines are copied back to its start. */
    method ScrUpWrap()
      requires Valid() && g.ega && top == 0 && bottom == LINES && scrEnd + g.columns > video.Length
      modifies this, video
      ensures Valid() && View() == ConsoleSpec.ScrUp(g, old(View()))
    {
      var c := g.columns;
      Rows(g, LINES - 1, LINES);
      origin := origin + c;
      pos := pos + c;
      scrEnd := scrEnd + c;
      CopyForward(origin, 0, Span(c, LINES - 1));
      FillCells(Span(c, LINES - 1), c, ERASE);
      scrEnd := scrEnd - origin;
      pos := pos - origin;
      origin := 0;
    }

    /** scrup when the origin can move down a line. */
    method ScrUpSlide()
      requires Valid() && g.ega && top == 0 && bottom == LINES && scrEnd + g.columns <= video.Length
      modifies this, video
      ensures Valid() && View() == ConsoleSpec.ScrUp(g, old(View()))
    {
      var c := g.columns;
      Rows(g, LINES - 1, LINES);
      origin := origin + c;
      pos := pos + c;
      scrEnd := scrEnd + c;
      FillCells(scrEnd - c, c, ERASE);
    }

    /** scrup of a region, or on a card other than an EGA/VGA. */
    method ScrUpRegion()
      requires Valid() && !(g.ega && top == 0 && bottom == LINES)
      modifies video
      ensures Valid() && View() == ConsoleSpec.ScrUp(g, old(View()))
    {
      var c := g.columns;
      Rows(g, top, bottom);
      var dst := origin + Span(c, top);
      var n := Span(c, bottom) - Span(c, top) - c;
      CopyForward(dst + c, dst, n);
      FillCells(dst + n, c, ERASE);
    }

    /** scrdown */
    method ScrDown()
      requires Valid()
      modifies video
      ensures Valid() && View() == ConsoleSpec.ScrDown(g, old(View()))
    {
      var c := g.columns;
      Rows(g, top, bottom);
      var src := origin + Span(c, top);
      var n := Span(c, bottom) - Span(c, top) - c;
      CopyBackward(src, src + c, n);
      FillCells(src, c, ERASE);
    }

    /** lf */
    method Lf()
      requires Valid()
      modifies this, video
      ensures Valid() && View() == ConsoleSpec.Lf(g, old(View()))
    {
      if y + 1 < bottom {
        y := y + 1;
        pos := pos + g.columns;
        return;
      }
      ScrUp();
    }

    /** ri */
    method Ri()
      requires Valid()
      modifies this, video
      ensures Valid() && View() == ConsoleSpec.Ri(g, old(View()))
    {
      if y > top {
        y := y - 1;
        pos := pos - g.columns;
        return;
      }
      ScrDown();
    }

    /** cr */
    method Cr()
      requires Valid()
      modifies this
      ensures Valid() && View() == old(View()).(x := 0)
    {
      pos := pos - x;
      x := 0;
    }

    /** del */
    method Del()
      requires Valid()
      modifies this, video
      ensures Valid() && View() == ConsoleSpec.Del(g, old(View()))
    {
      PosIn(g, View());
      if x != 0 {
        pos := pos - 1;
        x := x - 1;
        video[pos] := ERASE;
      }
    }

    /** csi_J */
    method CsiJ(p: int)
      requires Valid()
      modifies video
      ensures Valid() && View() == ConsoleSpec.CsiJ(g, old(View()), p)
    {
      PosIn(g, View());
      var count, start;
      if p == 0 {
        count, start := scrEnd - pos, pos;
      } else if p == 1 {
        count, start := pos - origin, origin;
      } else if p == 2 {
        count, start := Span(g.columns, LINES), origin;
      } else {
        return;
      }
      FillCells(start, count, ERASE);
    }

    /** csi_K */
    method CsiK(p: int)
      requires Valid()
      modifies video
      ensures Valid() && View() == ConsoleSpec.CsiK(g, old(View()), p)
    {
      PosIn(g, View());
      var count, start;
      if p == 0 {
        if x >= g.columns {
          return;
        }
        count, start := g.columns - x, pos;
      } else if p == 1 {
        start := pos - x;
        count := if x < g.columns then x else g.columns;
      } else if p == 2 {
        start := pos - x;
        count := g.columns;
      } else {
        return;
      }
      FillCells(start, count, ERASE);
    }

    /** csi_m */
    method CsiM()
      requires Valid()
      modifies this
      ensures Valid() && View() == ConsoleSpec.CsiM(g, old(View()))
    {
      var a := attr;
      var i := 0;
      while i <= npar
        invariant 0 <= i <= npar + 1 && a == Attr(attr, par[..i]) && 0 <= a < 256
      {
        assert par[..i + 1][..i] == par[..i];
        if par[i] == 0 || par[i] == 27 {
          a := 0x07;
        } else if par[i] == 1 || par[i] == 4 {
          a := 0x0f;
        } else if par[i] == 7 {
          a := 0x70;
        }
        i := i + 1;
      }
      attr := a;
    }

    /** insert_char */
    method InsertChar()
      requires Valid()
      modifies video
      ensures Valid() && View() == ConsoleSpec.InsertChar(g, old(View()))
    {
      PosIn(g, View());
      InsertCells(pos, g.columns - x);
    }

    /** insert_char's loop: each cell from p0 on takes the one before it,
        the first a blank. */
    method InsertCells(p0: int, n: int)
      requires 0 <= p0 && 0 <= n && p0 + n <= video.Length
      modifies video
      ensures video[..] == InsertAt(old(video[..]), p0, n, ERASE)
    {
      ghost var v := video[..];
      var i := 0;
      var carry := ERASE;
      while i < n
        invariant 0 <= i <= n
        invariant video[..] == InsertAt(v, p0, i, ERASE)
        invariant carry == if i == 0 then ERASE else v[p0 + i - 1]
      {
        InsertStep(v, p0, i, ERASE);
        var tmp := video[p0 + i];
        video[p0 + i] := carry;
        carry := tmp;
        i := i + 1;
      }
    }

    /** delete_char */
    method DeleteChar()
      requires Valid()
      modifies video
      ensures Valid() && View() == ConsoleSpec.DeleteChar(g, old(View()))
    {
      if x >= g.columns {
        return;
      }
      PosIn(g, View());
      DeleteCells(pos, g.columns - x);
    }

    /** delete_char's loop: each cell from p0 on takes the one after it, the
        last of the n a blank. */
    method DeleteCells(p0: int, n: int)
      requires 0 <= p0 && 1 <= n && p0 + n <= video.Length
      modifies video
      ensures video[..] == DeleteAt(old(video[..]), p0, n, ERASE)
    {
      ghost var v := video[..];
      var i := 0;
      while i < n - 1
        invariant 0 <= i <= n - 1
        invariant video[..] == Move(v, p0 + 1, p0, i)
      {
        MoveStep(v, p0 + 1, p0, i);
        video[p0 + i] := video[p0 + i + 1];
        i := i + 1;
      }
      video[p0 + n - 1] := ERASE;
    }

    /** insert_line */
    method InsertLine()
      requires Valid()
      modifies this, video
      ensures Valid() && View() == ConsoleSpec.InsertLine(g, old(View()))
    {
      var oldtop, oldbottom := top, bottom;
      top := y;
      bottom := LINES;
      ScrDown();
      top, bottom := oldtop, oldbottom;
    }

    /** delete_line */
    method DeleteLine()
      requires Valid()
      modifies this, video
      ensures Valid() && View() == ConsoleSpec.DeleteLine(g, old(View()))
    {
      var oldtop, oldbottom := top, bottom;
      top := y;
      bottom := LINES;
      ScrUp();
      top, bottom := oldtop, oldbottom;
    }

    method Edit1(e: Edit)
      requires Valid()
      modifies this, video
      ensures Valid() && View() == ConsoleSpec.Edit1(g, old(View()), e)
    {
      match e
      case InsChar => InsertChar();
      case DelChar => DeleteChar();
      case InsLine => InsertLine();
      case DelLine => DeleteLine();
    }

    /** csi_at, csi_P, csi_L and csi_M: the clamped count of edits. */
    method CsiEdit(e: Edit, count: int)
      requires Valid() && 0 <= count
      modifies this, video
      ensures Valid() && View() == ConsoleSpec.CsiEdit(g, old(View()), e, count)
    {
      var limit := if e == InsChar || e == DelChar then g.columns else LINES;
      var nr := count;
      if nr > limit {
        nr := limit;
      } else if nr == 0 {
        nr := 1;
      }
      RepeatEdit(e, nr);
    }

    /** The loop of the csi_ handlers: nr repetitions of one edit. */
    method RepeatEdit(e: Edit, nr: int)
      requires Valid() && 0 <= nr
      modifies this, video
      ensures Valid() && View() == Repeat(g, old(View()), e, nr)
    {
      ghost var s0 := View();
      var left := nr;
      while left > 0
        invariant 0 <= left <= nr && Valid() && View() == Repeat(g, s0, e, nr - left)
      {
        Edit1(e);
        left := left - 1;
      }
    }

    /** save_cur */
    method SaveCur()
      requires Valid()
      modifies this
      ensures Valid() && View() == ConsoleSpec.SaveCur(old(View()))
    {
      savedX, savedY := x, y;
    }

    /** restore_cur */
    method RestoreCur()
      requires Valid()
      modifies this
      ensures Valid() && View() == ConsoleSpec.RestoreCur(g, old(View()))
    {
      Gotoxy(savedX, savedY);
    }

    /** respond: RESPONSE PUTCH'd on the read queue q (copy_to_cooked is not
        called). */
    method Respond(q: Queue)
      requires q.Valid()
      modifies q`head, q.buf
      ensures q.Valid() && q.Contents() == Puts(old(q.Contents()), RESPONSE)
    {
      ghost var q0 := q.Contents();
      var i := 0;
      while i < |RESPONSE|
        invariant 0 <= i <= |RESPONSE| && q.Valid() && q.Contents() == Puts(q0, RESPONSE[..i])
      {
        assert RESPONSE[..i + 1][..i] == RESPONSE[..i];
        q.Putch(RESPONSE[i]);
        i := i + 1;
      }
      assert RESPONSE[..i] == RESPONSE;
    }

    /** The cursor, past the end of its row, goes to the next line. */
    method Wrap()
      requires Valid()
      modifies this, video
      ensures Valid() && View() == ConsoleSpec.Wrap(g, old(View()))
    {
      if x >= g.columns {
        x := x - g.columns;
        pos := pos - g.columns;
        Lf();
      }
    }

    /** A printable character in state 0. */
    method Print(c: int)
      requires Valid() && 31 < c < 127
      modifies this, video
      ensures Valid() && View() == ConsoleSpec.Print(g, old(View()), c)
    {
      Wrap();
      PosIn(g, View());
      video[pos] := attr * 256 + c;
      pos := pos + 1;
      x := x + 1;
    }

    /** TAB in state 0 (x & 7 is x % 8 for the unsigned x). */
    method Tab()
      requires Valid()
      modifies this, video
      ensures Valid() && View() == ConsoleSpec.Tab(g, old(View()))
    {
      var d := 8 - x % 8;
      if x + d > g.columns {
        x := x + d - g.columns;
        pos := pos + d - g.columns;
        Lf();
      } else {
        x := x + d;
        pos := pos + d;
      }
    }

    /** State 0. */
    method Plain(c: int, erase: int)
      requires Valid()
      modifies this, video
      ensures Valid() && View() == ConsoleSpec.Plain(g, old(View()), c, erase)
    {
      if 31 < c < 127 {
        Print(c);
      } else if c == ESC {
        state := 1;
      } else if c == 10 || c == 11 || c == 12 {
        Lf();
      } else if c == 13 {
        Cr();
      } else if c == erase {
        Del();
      } else if c == 8 {
        if x != 0 {
          x := x - 1;
          pos := pos - 1;
        }
      } else if c == 9 {
        Tab();
      }
    }

    /** State 1, with state already back to 0. */
    method Escaped(c: int, q: Queue)
      requires Valid() && q.Valid()
      modifies this, video, q`head, q.buf
      ensures Valid() && View() == ConsoleSpec.Escaped(g, old(View()), c) && q.Valid()
      ensures q.Contents() == if c == 90 then Puts(old(q.Contents()), RESPONSE) else old(q.Contents())
    {
      if c == 91 {
        state := 2;
      } else if c == 69 {
        Gotoxy(0, y + 1);
      } else if c == 77 {
        Ri();
      } else if c == 68 {
        Lf();
      } else if c == 90 {
        Respond(q);
      } else if x == 55 {
        SaveCur();
      } else if x == 56 {
        RestoreCur();
      }
    }

    method SetPar(i: int, v: int)
      requires Valid() && 0 <= i < NPAR && 0 <= v < 0x1_0000_0000
      modifies par
      ensures Valid() && View() == ConsoleSpec.SetPar(g, old(View()), i, v)
    {
      par[i] := v;
    }

    /** The cursor motions of state 4. */
    method Motion(c: int)
      requires Valid() && IsMotion(c)
      modifies this, par
      ensures Valid() && View() == ConsoleSpec.Motion(g, old(View()), c)
    {
      if IsPlace(c) {
        Place(c);
      } else {
        Shift(c);
      }
    }

    method Place(c: int)
      requires Valid() && IsPlace(c)
      modifies this, par
      ensures Valid() && View() == ConsoleSpec.Place(g, old(View()), c)
    {
      SetPar(0, Dec(par[0]));
      if c == 71 || c == 96 {
        Gotoxy(par[0], y);
      } else if c == 100 {
        Gotoxy(x, par[0]);
      } else {
        SetPar(1, Dec(par[1]));
        Gotoxy(par[1], par[0]);
      }
    }

    method Shift(c: int)
      requires Valid()
      modifies this, par
      ensures Valid() && View() == ConsoleSpec.Shift(g, old(View()), c)
    {
      SetPar(0, AtLeastOne(par[0]));
      if c == 65 {
        Gotoxy(x, y - par[0]);
      } else if c == 66 || c == 101 {
        Gotoxy(x, y + par[0]);
      } else if c == 67 || c == 97 {
        Gotoxy(x + par[0], y);
      } else if c == 68 {
        Gotoxy(x - par[0], y);
      } else if c == 69 {
        Gotoxy(0, y + par[0]);
      } else {
        Gotoxy(0, y - par[0]);
      }
    }

    /** 'r' in state 4. */
    method Region()
      requires Valid()
      modifies this, par
      ensures Valid() && View() == ConsoleSpec.Region(g, old(View()))
    {
      SetPar(0, Dec(par[0]));
      if par[1] == 0 {
        SetPar(1, LINES);
      }
      if par[0] < par[1] && par[1] <= LINES {
        top := par[0];
        bottom := par[1];
      }
    }

    /** State 4, with state already back to 0. */
    method Final(c: int)
      requires Valid()
      modifies this, par, video
      ensures Valid() && View() == ConsoleSpec.Final(g, old(View()), c)
    {
      if IsMotion(c) {
        Motion(c);
      } else if c == 74 {
        CsiJ(par[0]);
      } else if c == 75 {
        CsiK(par[0]);
      } else if c == 76 {
        CsiEdit(InsLine, par[0]);
      } else if c == 77 {
        CsiEdit(DelLine, par[0]);
      } else if c == 80 {
        CsiEdit(DelChar, par[0]);
      } else if c == 64 {
        CsiEdit(InsChar, par[0]);
      } else if c == 109 {
        CsiM();
      } else if c == 114 {
        Region();
      } else if c == 115 {
        SaveCur();
      } else if c == 117 {
        RestoreCur();
      }
    }

    /** State 3. */
    method Param(c: int)
      requires Valid() && state == 3
      modifies this, par, video
      ensures Valid() && View() == ConsoleSpec.Param(g, old(View()), c)
    {
      if c == 59 && npar < NPAR - 1 {
        npar := npar + 1;
      } else if 48 <= c <= 57 {
        SetPar(npar, Unsigned(10 * par[npar] + c - 48));
      } else {
        state := 0;
        Final(c);
      }
    }

    /** State 2: the parameters cleared (the source's loop counts with npar,
        which it then sets to 0). */
    method Start(c: int)
      requires Valid()
      modifies this, par, video
      ensures Valid() && View() == ConsoleSpec.Start(g, old(View()), c)
    {
      for i := 0 to NPAR
        modifies par
        invariant forall k :: 0 <= k < i ==> par[k] == 0
      {
        par[i] := 0;
      }
      assert par[..] == Zeros();
      npar := 0;
      state := 3;
      ques := c == 63;
      assert View() == old(View()).(par := Zeros(), npar := 0, state := 3, ques := c == 63);
      if !ques {
        Param(c);
      }
    }

    /** The switch of con_write on one character: erase is the terminal's
        ERASE_CHAR and q its read queue. */
    method Step(c: int, erase: int, q: Queue)
      requires Valid() && q.Valid()
      modifies this, par, video, q`head, q.buf
      ensures Valid() && View() == ConsoleSpec.Step(g, old(View()), c, erase) && q.Valid()
      ensures q.Contents() == if Responds(old(View()), c) then Puts(old(q.Contents()), RESPONSE) else old(q.Contents())
    {
      if state == 0 {
        Plain(c, erase);
      } else if state == 1 {
        state := 0;
        Escaped(c, q);
      } else if state == 2 {
        Start(c);
      } else if state == 3 {
        Param(c);
      } else {
        state := 0;
        Final(c);
      }
    }

    /** con_write: every character waiting on the terminal's write queue goes
        through Step; the final set_cursor is not modelled. */
    method ConWrite(tty: Terminal)
      requires Valid() && tty.Valid()
      modifies this, par, video, tty.writeQ`tail, tty.readQ`head, tty.readQ.buf
      ensures Valid() && tty.Valid() && tty.writeQ.Contents() == []
      ensures (View(), tty.readQ.Contents()) ==
        ConsoleSpec.Run(g, old(View()), old(tty.readQ.Contents()), old(tty.writeQ.Contents()), tty.termios.cc[VERASE])
    {
      Room(tty.writeQ);
      var nr := tty.writeQ.Chars();
      ghost var cs := tty.writeQ.Contents();
      ghost var s0, q0 := View(), tty.readQ.Contents();
      var erase := tty.termios.cc[VERASE];
      var i := 0;
      while i < nr
        invariant 0 <= i <= nr && Valid() && tty.Valid() && erase == tty.termios.cc[VERASE]
        invariant tty.writeQ.Contents() == cs[i..]
        invariant View() == ConsoleSpec.Run(g, s0, q0, cs[..i], erase).0
        invariant tty.readQ.Contents() == ConsoleSpec.Run(g, s0, q0, cs[..i], erase).1
      {
        assert cs[..i + 1] == cs[..i] + [cs[i]];
        RunSnoc(g, s0, q0, cs[..i], cs[i], erase);
        assert cs[i..] == [cs[i]] + cs[i + 1..];
        Feed(tty, erase);
        i := i + 1;
      }
      assert cs[..i] == cs;
    }

    /** One turn of con_write's loop: GETCH from the write queue, then Step. */
    method Feed(tty: Terminal, erase: int)
      requires Valid() && tty.Valid() && tty.writeQ.Contents() != []
      modifies this, par, video, tty.writeQ`tail, tty.readQ`head, tty.readQ.buf
      ensures Valid() && tty.Valid() && unchanged(tty)
      ensures tty.writeQ.Contents() == old(tty.writeQ.Contents())[1..]
      ensures View() == ConsoleSpec.Step(g, old(View()), old(tty.writeQ.Contents())[0], erase)
      ensures tty.readQ.Contents() ==
        if Responds(old(View()), old(tty.writeQ.Contents())[0]) then Puts(old(tty.readQ.Contents()), RESPONSE)
        else old(tty.readQ.Contents())
    {
      Room(tty.writeQ);
      var c := tty.writeQ.Getch();
      Step(c, erase, tty.readQ);
    }
  }
}
