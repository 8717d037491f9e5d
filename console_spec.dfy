/** What the console driver (kernel/chr_drv/console.c) does to the screen,
    as functions on a value: the cursor, the scrolling region, the state of
    the escape-sequence parser (ESC, then '[' and the parameters of a
    control sequence in the syntax of section 5.4 of ECMA-48, then its
    final character), the attribute and the video memory.

    Video memory is a sequence of 16-bit cells, the character in the low
    byte and its attribute in the high one, indexed from video_mem_start;
    the driver's byte addresses origin, pos and scr_end are cell indices
    here (every one of them is even in the source). pos is not kept: it is
    always origin + y * columns + x. */
module ConsoleSpec {
  import opened Util
  import opened Driver
  import opened TtyQueue

  /** NPAR: the parameters a control sequence can hold. */
  const NPAR: int := 16
  /** ORIG_VIDEO_LINES */
  const LINES: int := 25
  /** video_erase_char: a blank with attribute 0x07. */
  const ERASE: int := 0x0720
  const ESC: int := 27
  /** RESPONSE: ESC [ ? 1 ; 2 c, the answer to ESC Z. */
  const RESPONSE: seq<SChar> := [27, 91, 63, 49, 59, 50, 99]

  /** The display con_init found: the text columns, the cells of video
      memory from video_mem_start to video_mem_end, and whether the card is
      an EGA/VGA (which scrolls by moving origin). */
  datatype Video = Video(columns: int, cells: int, ega: bool)

  /** The model takes an even column count of at least 8 (the BIOS reports
      40 or 80, in a byte) and video memory that holds a screen. */
  predicate VideoOk(g: Video)
  {
    8 <= g.columns < 256 && g.columns % 2 == 0 && Span(g.columns, LINES) <= g.cells
  }

  /** The console's statics: x, y, top, bottom, origin, state, npar, par,
      ques, attr, saved_x, saved_y, and video memory. */
  datatype Scr = Scr(x: int, y: int, top: int, bottom: int, origin: int,
                     state: int, npar: int, par: seq<int>, ques: bool, attr: int,
                     savedX: int, savedY: int, video: seq<int>)

  predicate ScrOk(g: Video, s: Scr)
  {
    VideoOk(g) && |s.video| == g.cells &&
    0 <= s.origin && s.origin + Span(g.columns, LINES) <= g.cells && (!g.ega ==> s.origin == 0) &&
    0 <= s.x <= g.columns && 0 <= s.y < LINES && 0 <= s.top < s.bottom <= LINES &&
    0 <= s.state <= 4 && 0 <= s.npar < NPAR && |s.par| == NPAR &&
    (forall i :: 0 <= i < NPAR ==> 0 <= s.par[i] < 0x1_0000_0000) &&
    0 <= s.attr < 256
  }

  /** pos, the cell under the cursor. */
  function Pos(g: Video, s: Scr): int
    requires 0 <= s.y
  {
    s.origin + Span(g.columns, s.y) + s.x
  }

  /** scr_end, the cell after the screen. */
  function ScrEnd(g: Video, s: Scr): int
  {
    s.origin + Span(g.columns, LINES)
  }

  /** k rows of c cells, the k * c of the source (SpanIs), written by
      recursion so that the solver sees a term in place of a product. */
  function Span(c: int, k: nat): int
  {
    if k == 0 then 0 else Span(c, k - 1) + c
  }

  lemma {:induction false} SpanIs(c: int, k: nat)
    ensures Span(c, k) == k * c
  {
    if k > 0 {
      SpanIs(c, k - 1);
    }
  }

  lemma {:induction false} SpanMono(c: int, a: nat, b: nat)
    requires 0 <= c && a <= b
    ensures 0 <= Span(c, a) <= Span(c, b)
    ensures a < b ==> Span(c, a) + c <= Span(c, b)
    decreases a + b
  {
    if a < b {
      SpanMono(c, a, b - 1);
    } else if a > 0 {
      SpanMono(c, a - 1, a);
    }
  }

  /** Rows a to b of the screen, in cells. */
  lemma Rows(g: Video, a: int, b: int)
    requires VideoOk(g) && 0 <= a < b <= LINES
    ensures 0 <= Span(g.columns, a) && Span(g.columns, a) + g.columns <= Span(g.columns, b) <= Span(g.columns, LINES)
    ensures Span(g.columns, a + 1) == Span(g.columns, a) + g.columns
  {
    SpanMono(g.columns, a, b);
    SpanMono(g.columns, b, LINES);
  }

  /** Row k starts inside the screen and ends at most at its end. */
  lemma RowIn(g: Video, k: int)
    requires VideoOk(g) && 0 <= k < LINES
    ensures 0 <= Span(g.columns, k) && Span(g.columns, k) + g.columns <= Span(g.columns, LINES)
  {
    Rows(g, k, LINES);
  }

  lemma PosIn(g: Video, s: Scr)
    requires ScrOk(g, s)
    ensures 0 <= Span(g.columns, s.y) && 0 <= s.origin + Span(g.columns, s.y) <= Pos(g, s)
    ensures Pos(g, s) <= s.origin + Span(g.columns, s.y) + g.columns <= ScrEnd(g, s) <= |s.video|
  {
    RowIn(g, s.y);
  }

  /** v with n cells from at set to e (FillAt says which cells). */
  function Fill(v: seq<int>, at: int, n: int, e: int): (r: seq<int>)
    requires 0 <= at && 0 <= n && at + n <= |v|
    ensures |r| == |v|
  {
    if n == 0 then v else Fill(v, at, n - 1, e)[at + n - 1 := e]
  }

  /** v with the n cells from src copied to dst, every one read from v:
      the rep movsl copies, which go the way that makes an overlapping copy
      come out right (MoveAt says which cells). */
  function Move(v: seq<int>, src: int, dst: int, n: int): (r: seq<int>)
    requires 0 <= src && 0 <= dst && 0 <= n && src + n <= |v| && dst + n <= |v|
    ensures |r| == |v|
  {
    if n == 0 then v else Move(v, src, dst, n - 1)[dst + n - 1 := v[src + n - 1]]
  }

  lemma {:induction false} FillAt(v: seq<int>, at: int, n: int, e: int, k: int)
    requires 0 <= at && 0 <= n && at + n <= |v| && 0 <= k < |v|
    ensures Fill(v, at, n, e)[k] == if at <= k < at + n then e else v[k]
  {
    if n > 0 {
      FillAt(v, at, n - 1, e, k);
    }
  }

  lemma {:induction false} MoveAt(v: seq<int>, src: int, dst: int, n: int, k: int)
    requires 0 <= src && 0 <= dst && 0 <= n && src + n <= |v| && dst + n <= |v| && 0 <= k < |v|
    ensures Move(v, src, dst, n)[k] == if dst <= k < dst + n then v[k - dst + src] else v[k]
  {
    if n > 0 {
      MoveAt(v, src, dst, n - 1, k);
    }
  }

  /** gotoxy: the unsigned arguments are taken as they wrap; a column past
      the end of a row or a line past the screen leaves the cursor alone. */
  function Gotoxy(g: Video, s: Scr, newX: int, newY: int): (r: Scr)
    ensures ScrOk(g, s) ==> ScrOk(g, r)
  {
    var nx, ny := Unsigned(newX), Unsigned(newY);
    if nx > g.columns || ny >= LINES then s else s.(x := nx, y := ny)
  }

  /** s with par[i] set to an unsigned long. */
  function SetPar(g: Video, s: Scr, i: int, v: int): (r: Scr)
    requires ScrOk(g, s) && 0 <= i < NPAR && 0 <= v < 0x1_0000_0000
    ensures ScrOk(g, r)
  {
    s.(par := s.par[i := v])
  }

  /** scrup: the scrolling region moves up a line and a blank line appears
      at its bottom. On an EGA/VGA, with the region the whole screen, the
      screen itself moves down video memory by one row; when it would run
      past the end, the screen is first copied to the start of video
      memory. */
  function ScrUp(g: Video, s: Scr): (r: Scr)
    requires ScrOk(g, s)
    ensures ScrOk(g, r) && r == s.(origin := r.origin, video := r.video)
  {
    var c := g.columns;
    Rows(g, LINES - 1, LINES);
    if g.ega && s.top == 0 && s.bottom == LINES then
      var o := s.origin + c;
      var n := Span(c, LINES - 1);
      if o + Span(c, LINES) > g.cells then
        s.(origin := 0, video := Fill(Move(s.video, o, 0, n), n, c, ERASE))
      else
        s.(origin := o, video := Fill(s.video, o + n, c, ERASE))
    else
      Rows(g, s.top, s.bottom);
      var dst := s.origin + Span(c, s.top);
      var n := Span(c, s.bottom) - Span(c, s.top) - c;
      s.(video := Fill(Move(s.video, dst + c, dst, n), dst + n, c, ERASE))
  }

  /** scrdown: the scrolling region moves down a line and a blank line
      appears at its top. */
  function ScrDown(g: Video, s: Scr): (r: Scr)
    requires ScrOk(g, s)
    ensures ScrOk(g, r) && r == s.(video := r.video)
  {
    var c := g.columns;
    Rows(g, s.top, s.bottom);
    var src := s.origin + Span(c, s.top);
    var n := Span(c, s.bottom) - Span(c, s.top) - c;
    s.(video := Fill(Move(s.video, src, src + c, n), src, c, ERASE))
  }

  /** lf: down a line, scrolling the region at its bottom line. */
  function Lf(g: Video, s: Scr): (r: Scr)
    requires ScrOk(g, s)
    ensures ScrOk(g, r) && r.x == s.x
  {
    if s.y + 1 < s.bottom then s.(y := s.y + 1) else ScrUp(g, s)
  }

  /** ri: up a line, scrolling the region at its top line. */
  function Ri(g: Video, s: Scr): (r: Scr)
    requires ScrOk(g, s)
    ensures ScrOk(g, r)
  {
    if s.y > s.top then s.(y := s.y - 1) else ScrDown(g, s)
  }

  /** del: the character left of the cursor is erased and the cursor moves
      onto it. */
  function Del(g: Video, s: Scr): (r: Scr)
    requires ScrOk(g, s)
    ensures ScrOk(g, r)
  {
    PosIn(g, s);
    if s.x != 0 then s.(x := s.x - 1, video := s.video[Pos(g, s) - 1 := ERASE]) else s
  }

  /** csi_J: erase to the end of the screen, from its start to the cursor,
      or all of it. */
  function CsiJ(g: Video, s: Scr, p: int): (r: Scr)
    requires ScrOk(g, s)
    ensures ScrOk(g, r) && r == s.(video := r.video)
  {
    PosIn(g, s);
    var pos := Pos(g, s);
    if p == 0 then s.(video := Fill(s.video, pos, ScrEnd(g, s) - pos, ERASE))
    else if p == 1 then s.(video := Fill(s.video, s.origin, pos - s.origin, ERASE))
    else if p == 2 then s.(video := Fill(s.video, s.origin, Span(g.columns, LINES), ERASE))
    else s
  }

  /** csi_K: erase to the end of the line, from its start to the cursor, or
      all of it. */
  function CsiK(g: Video, s: Scr, p: int): (r: Scr)
    requires ScrOk(g, s)
    ensures ScrOk(g, r) && r == s.(video := r.video)
  {
    PosIn(g, s);
    var pos := Pos(g, s);
    if p == 0 then
      if s.x >= g.columns then s else s.(video := Fill(s.video, pos, g.columns - s.x, ERASE))
    else if p == 1 then s.(video := Fill(s.video, pos - s.x, if s.x < g.columns then s.x else g.columns, ERASE))
    else if p == 2 then s.(video := Fill(s.video, pos - s.x, g.columns, ERASE))
    else s
  }

  /** One parameter of csi_m: 0 and 27 select normal, 1 and 4 bright, 7
      reverse video; anything else keeps the attribute. */
  function Recolor(attr: int, p: int): (r: int)
    ensures r == attr || r == 0x07 || r == 0x0f || r == 0x70
  {
    if p == 0 || p == 27 then 0x07
    else if p == 1 || p == 4 then 0x0f
    else if p == 7 then 0x70
    else attr
  }

  /** The attribute after csi_m has gone through ps in order. */
  function Attr(attr: int, ps: seq<int>): (r: int)
    ensures 0 <= attr < 256 ==> 0 <= r < 256
  {
    if ps == [] then attr else Recolor(Attr(attr, ps[..|ps| - 1]), ps[|ps| - 1])
  }

  /** csi_m, over par[0..npar]. */
  function CsiM(g: Video, s: Scr): (r: Scr)
    requires ScrOk(g, s)
    ensures ScrOk(g, r) && r == s.(attr := r.attr)
  {
    s.(attr := Attr(s.attr, s.par[..s.npar + 1]))
  }

  /** v with e inserted at p, the n cells from p shifted right by one and
      the last of them dropped. */
  function InsertAt(v: seq<int>, p: int, n: int, e: int): (r: seq<int>)
    requires 0 <= p && 0 <= n && p + n <= |v|
    ensures |r| == |v|
  {
    if n == 0 then v else Move(v, p, p + 1, n - 1)[p := e]
  }

  /** v with the cell at p removed, the n - 1 cells after it shifted left by
      one and e written last. */
  function DeleteAt(v: seq<int>, p: int, n: int, e: int): (r: seq<int>)
    requires 0 <= p && 1 <= n && p + n <= |v|
    ensures |r| == |v|
  {
    Move(v, p + 1, p, n - 1)[p + n - 1 := e]
  }

  /** insert_char: a blank at the cursor, the rest of the row shifted right. */
  function InsertChar(g: Video, s: Scr): (r: Scr)
    requires ScrOk(g, s)
    ensures ScrOk(g, r) && r == s.(video := r.video)
  {
    PosIn(g, s);
    s.(video := InsertAt(s.video, Pos(g, s), g.columns - s.x, ERASE))
  }

  /** delete_char: nothing with the cursor past the row; otherwise the rest
      of the row shifted left onto the cursor and a blank at its end. */
  function DeleteChar(g: Video, s: Scr): (r: Scr)
    requires ScrOk(g, s)
    ensures ScrOk(g, r) && r == s.(video := r.video)
  {
    PosIn(g, s);
    if s.x >= g.columns then s else s.(video := DeleteAt(s.video, Pos(g, s), g.columns - s.x, ERASE))
  }

  /** insert_line: the lines from the cursor's down scroll down by one. */
  function InsertLine(g: Video, s: Scr): (r: Scr)
    requires ScrOk(g, s)
    ensures ScrOk(g, r) && r == s.(video := r.video)
  {
    ScrDown(g, s.(top := s.y, bottom := LINES)).(top := s.top, bottom := s.bottom)
  }

  /** delete_line: the lines from the cursor's down scroll up by one. */
  function DeleteLine(g: Video, s: Scr): (r: Scr)
    requires ScrOk(g, s)
    ensures ScrOk(g, r) && r == s.(origin := r.origin, video := r.video)
  {
    ScrUp(g, s.(top := s.y, bottom := LINES)).(top := s.top, bottom := s.bottom)
  }

  /** The count of csi_@, csi_L, csi_P and csi_M: nr cut to limit, 0 taken as 1. */
  function Clamp(nr: int, limit: int): int
  {
    if nr > limit then limit else if nr == 0 then 1 else nr
  }

  lemma ClampIn(nr: int, limit: int)
    requires 0 <= nr && 1 <= limit
    ensures 1 <= Clamp(nr, limit) <= limit
    ensures 1 <= nr <= limit ==> Clamp(nr, limit) == nr
  {
  }

  /** k repetitions of insert_char, delete_char, insert_line or delete_line. */
  datatype Edit = InsChar | DelChar | InsLine | DelLine

  function Edit1(g: Video, s: Scr, e: Edit): (r: Scr)
    requires ScrOk(g, s)
    ensures ScrOk(g, r) && r == s.(origin := r.origin, video := r.video)
  {
    match e
    case InsChar => InsertChar(g, s)
    case DelChar => DeleteChar(g, s)
    case InsLine => InsertLine(g, s)
    case DelLine => DeleteLine(g, s)
  }

  function Repeat(g: Video, s: Scr, e: Edit, k: nat): (r: Scr)
    requires ScrOk(g, s)
    ensures ScrOk(g, r) && r == s.(origin := r.origin, video := r.video)
  {
    if k == 0 then s else Edit1(g, Repeat(g, s, e, k - 1), e)
  }

  /** csi_@, csi_P (counts up to the columns) and csi_L, csi_M (counts up
      to the lines). */
  function CsiEdit(g: Video, s: Scr, e: Edit, nr: int): (r: Scr)
    requires ScrOk(g, s) && 0 <= nr
    ensures ScrOk(g, r)
  {
    var limit := if e == InsChar || e == DelChar then g.columns else LINES;
    ClampIn(nr, limit);
    Repeat(g, s, e, Clamp(nr, limit))
  }

  /** save_cur */
  function SaveCur(s: Scr): Scr
  {
    s.(savedX := s.x, savedY := s.y)
  }

  /** restore_cur */
  function RestoreCur(g: Video, s: Scr): Scr
  {
    Gotoxy(g, s, s.savedX, s.savedY)
  }

  /** A printable character (state 0): at the end of a row the cursor first
      goes to the start of the next line; the character is written with the
      current attribute and the cursor moves right. */
  function Print(g: Video, s: Scr, c: int): (r: Scr)
    requires ScrOk(g, s) && 31 < c < 127
    ensures ScrOk(g, r)
  {
    var s1 := Wrap(g, s);
    PosIn(g, s1);
    s1.(x := s1.x + 1, video := s1.video[Pos(g, s1) := s1.attr * 256 + c])
  }

  /** The cursor, past the end of its row, goes to the next line. */
  function Wrap(g: Video, s: Scr): (r: Scr)
    requires ScrOk(g, s)
    ensures ScrOk(g, r) && r.x < g.columns
  {
    if s.x >= g.columns then Lf(g, s.(x := s.x - g.columns)) else s
  }

  /** TAB: on to the next multiple of 8, to the next line past the row's end. */
  function Tab(g: Video, s: Scr): (r: Scr)
    requires ScrOk(g, s)
    ensures ScrOk(g, r)
  {
    var nx := s.x + (8 - s.x % 8);
    if nx > g.columns then Lf(g, s.(x := nx - g.columns)) else s.(x := nx)
  }

  /** State 0: characters other than ESC, the printable ones and the
      controls handled; erase is the terminal's ERASE_CHAR. BEL sounds the
      speaker (not modelled) and every other control is ignored. */
  function Plain(g: Video, s: Scr, c: int, erase: int): (r: Scr)
    requires ScrOk(g, s)
    ensures ScrOk(g, r)
  {
    if 31 < c < 127 then Print(g, s, c)
    else if c == ESC then s.(state := 1)
    else if c == 10 || c == 11 || c == 12 then Lf(g, s)
    else if c == 13 then s.(x := 0)
    else if c == erase then Del(g, s)
    else if c == 8 then (if s.x != 0 then s.(x := s.x - 1) else s)
    else if c == 9 then Tab(g, s)
    else s
  }

  /** State 1, after ESC (state is back to 0). The tests for '7' and '8'
      compare the cursor column x, not the character: ESC followed by any
      character not handled before saves the cursor when x is 55 (the code
      of '7') and restores it when x is 56. */
  function Escaped(g: Video, s: Scr, c: int): (r: Scr)
    requires ScrOk(g, s)
    ensures ScrOk(g, r)
  {
    if c == 91 then s.(state := 2)
    else if c == 69 then Gotoxy(g, s, 0, s.y + 1)
    else if c == 77 then Ri(g, s)
    else if c == 68 then Lf(g, s)
    else if c == 90 then s
    else if s.x == 55 then SaveCur(s)
    else if s.x == 56 then RestoreCur(g, s)
    else s
  }

  /** par[0] less one unless it is 0, as 'G', 'd', 'H' and 'r' take it. */
  function Dec(p: int): int
  {
    if p != 0 then p - 1 else p
  }

  /** par[0] with 0 taken as 1, as the cursor motions take it. */
  function AtLeastOne(p: int): int
  {
    if p == 0 then 1 else p
  }

  /** The final characters that move the cursor. */
  predicate IsMotion(c: int)
  {
    c in {71, 96, 65, 66, 101, 67, 97, 68, 69, 70, 100, 72, 102}
  }

  /** The final characters that move the cursor to a position: 'G' and
      '`' to column par[0], 'd' to line par[0], 'H' and 'f' to line par[0]
      and column par[1]; the positions count from 1, so par[0] and par[1]
      are taken less one. */
  predicate IsPlace(c: int)
  {
    c in {71, 96, 100, 72, 102}
  }

  /** A motion to a position, with par[0] and par[1] keeping their adjusted
      values. */
  function Place(g: Video, s: Scr, c: int): (r: Scr)
    requires ScrOk(g, s) && IsPlace(c)
    ensures ScrOk(g, r)
  {
    var d := Dec(s.par[0]);
    if c == 71 || c == 96 then Gotoxy(g, SetPar(g, s, 0, d), d, s.y)
    else if c == 100 then Gotoxy(g, SetPar(g, s, 0, d), s.x, d)
    else
      var p1 := Dec(s.par[1]);
      Gotoxy(g, SetPar(g, SetPar(g, s, 0, d), 1, p1), p1, d)
  }

  /** A motion by par[0] (0 taken as 1), which keeps that value: 'A' up,
      'B' and 'e' down, 'C' and 'a' right, 'D' left, 'E' and 'F' down and up
      to column 0. */
  function Shift(g: Video, s: Scr, c: int): (r: Scr)
    requires ScrOk(g, s)
    ensures ScrOk(g, r)
  {
    var a := AtLeastOne(s.par[0]);
    var s1 := SetPar(g, s, 0, a);
    if c == 65 then Gotoxy(g, s1, s.x, s.y - a)
    else if c == 66 || c == 101 then Gotoxy(g, s1, s.x, s.y + a)
    else if c == 67 || c == 97 then Gotoxy(g, s1, s.x + a, s.y)
    else if c == 68 then Gotoxy(g, s1, s.x - a, s.y)
    else if c == 69 then Gotoxy(g, s1, 0, s.y + a)
    else Gotoxy(g, s1, 0, s.y - a)
  }

  /** The cursor motions. */
  function Motion(g: Video, s: Scr, c: int): (r: Scr)
    requires ScrOk(g, s) && IsMotion(c)
    ensures ScrOk(g, r)
  {
    if IsPlace(c) then Place(g, s, c) else Shift(g, s, c)
  }

  /** 'r': par[0] (less one) and par[1] (0 taken as the line count) become
      the scrolling region if they make one. */
  function Region(g: Video, s: Scr): (r: Scr)
    requires ScrOk(g, s)
    ensures ScrOk(g, r)
  {
    var top := Dec(s.par[0]);
    var bottom := if s.par[1] == 0 then LINES else s.par[1];
    var s1 := SetPar(g, SetPar(g, s, 0, top), 1, bottom);
    if top < bottom <= LINES then s1.(top := top, bottom := bottom) else s1
  }

  /** The final character of a control sequence (state 4; state is back to
      0). Unknown final characters are ignored. */
  function Final(g: Video, s: Scr, c: int): (r: Scr)
    requires ScrOk(g, s)
    ensures ScrOk(g, r)
  {
    var p0 := s.par[0];
    if IsMotion(c) then Motion(g, s, c)
    else if c == 74 then CsiJ(g, s, p0)
    else if c == 75 then CsiK(g, s, p0)
    else if c == 76 then CsiEdit(g, s, InsLine, p0)
    else if c == 77 then CsiEdit(g, s, DelLine, p0)
    else if c == 80 then CsiEdit(g, s, DelChar, p0)
    else if c == 64 then CsiEdit(g, s, InsChar, p0)
    else if c == 109 then CsiM(g, s)
    else if c == 114 then Region(g, s)
    else if c == 115 then SaveCur(s)
    else if c == 117 then RestoreCur(g, s)
    else s
  }

  /** State 3: ';' moves to the next parameter while there is one, a digit
      is accumulated into the current one (an unsigned long); any other
      character ends the sequence. */
  function Param(g: Video, s: Scr, c: int): (r: Scr)
    requires ScrOk(g, s) && s.state == 3
    ensures ScrOk(g, r)
  {
    if c == 59 && s.npar < NPAR - 1 then s.(npar := s.npar + 1)
    else if 48 <= c <= 57 then SetPar(g, s, s.npar, Unsigned(10 * s.par[s.npar] + c - 48))
    else Final(g, s.(state := 0), c)
  }

  /** The parameters a control sequence starts with. */
  function Zeros(): (z: seq<int>)
    ensures |z| == NPAR && forall i :: 0 <= i < NPAR ==> z[i] == 0
  {
    seq(NPAR, _ => 0)
  }

  /** State 2, after ESC [: the parameters are cleared, a '?' is noted and
      anything else is taken as the first character of the parameters. */
  function Start(g: Video, s: Scr, c: int): (r: Scr)
    requires ScrOk(g, s)
    ensures ScrOk(g, r)
  {
    var s2 := s.(par := Zeros(), npar := 0, state := 3, ques := c == 63);
    if c == 63 then s2 else Param(g, s2, c)
  }

  /** One character of con_write; erase is the terminal's ERASE_CHAR. */
  function Step(g: Video, s: Scr, c: int, erase: int): (r: Scr)
    requires ScrOk(g, s)
    ensures ScrOk(g, r)
  {
    if s.state == 0 then Plain(g, s, c, erase)
    else if s.state == 1 then Escaped(g, s.(state := 0), c)
    else if s.state == 2 then Start(g, s, c)
    else if s.state == 3 then Param(g, s, c)
    else Final(g, s.(state := 0), c)
  }

  /** ESC Z: respond puts RESPONSE on the terminal's read queue. */
  predicate Responds(s: Scr, c: int)
  {
    s.state == 1 && c == 90
  }

  /** The read queue after each character of RESPONSE is PUTCH'd. */
  function Puts(q: seq<SChar>, r: seq<SChar>): seq<SChar>
  {
    if r == [] then q else Put(Puts(q, r[..|r| - 1]), r[|r| - 1])
  }

  /** The screen and the read queue after con_write has written cs. */
  function Run(g: Video, s: Scr, q: seq<SChar>, cs: seq<SChar>, erase: int): (r: (Scr, seq<SChar>))
    requires ScrOk(g, s)
    ensures ScrOk(g, r.0)
  {
    if cs == [] then (s, q)
    else
      var (s1, q1) := Run(g, s, q, cs[..|cs| - 1], erase);
      var c := cs[|cs| - 1];
      (Step(g, s1, c, erase), if Responds(s1, c) then Puts(q1, RESPONSE) else q1)
  }

  /** Run on one more character is Step on what Run left. */
  lemma RunSnoc(g: Video, s: Scr, q: seq<SChar>, cs: seq<SChar>, c: SChar, erase: int)
    requires ScrOk(g, s)
    ensures Run(g, s, q, cs + [c], erase) ==
      (Step(g, Run(g, s, q, cs, erase).0, c, erase),
       if Responds(Run(g, s, q, cs, erase).0, c) then Puts(Run(g, s, q, cs, erase).1, RESPONSE) else Run(g, s, q, cs, erase).1)
  {
    assert (cs + [c])[..|cs|] == cs;
  }

  /** Run over cs1 and then cs2 is Run over cs1 + cs2: con_write may be
      called on any split of the output. */
  lemma {:induction false} RunAppend(g: Video, s: Scr, q: seq<SChar>, cs1: seq<SChar>, cs2: seq<SChar>, erase: int)
    requires ScrOk(g, s)
    ensures Run(g, s, q, cs1 + cs2, erase) ==
      Run(g, Run(g, s, q, cs1, erase).0, Run(g, s, q, cs1, erase).1, cs2, erase)
  {
    if cs2 == [] {
      assert cs1 + cs2 == cs1;
    } else {
      var init := cs2[..|cs2| - 1];
      var c := cs2[|cs2| - 1];
      assert cs2 == init + [c];
      assert cs1 + cs2 == (cs1 + init) + [c];
      RunAppend(g, s, q, cs1, init, erase);
      RunSnoc(g, s, q, cs1 + init, c, erase);
      var m := Run(g, s, q, cs1, erase);
      RunSnoc(g, m.0, m.1, init, c, erase);
    }
  }

  /** gotoxy moves to any position on the screen and ignores the others; a
      negative coordinate wraps to a huge unsigned one and is ignored too. */
  lemma GotoxyMeans(g: Video, s: Scr, newX: int, newY: int)
    requires ScrOk(g, s) && -0x8000_0000 <= newX < 0x8000_0000 && -0x8000_0000 <= newY < 0x8000_0000
    ensures 0 <= newX <= g.columns && 0 <= newY < LINES <==> Gotoxy(g, s, newX, newY) == s.(x := newX, y := newY)
    ensures !(0 <= newX <= g.columns && 0 <= newY < LINES) ==> Gotoxy(g, s, newX, newY) == s
  {
  }

  /** ESC in state 0 starts an escape sequence and changes nothing else. */
  lemma EscStarts(g: Video, s: Scr, erase: int)
    requires ScrOk(g, s) && s.state == 0
    ensures Step(g, s, ESC, erase) == s.(state := 1)
  {
  }

  /** ESC [ starts a control sequence. */
  lemma BracketStarts(g: Video, s: Scr, erase: int)
    requires ScrOk(g, s) && s.state == 1
    ensures Step(g, s, 91, erase) == s.(state := 2)
  {
  }

  /** The character after ESC [ clears every parameter; '?' is noted and
      consumed, anything else is handled as in state 3. */
  lemma StartClears(g: Video, s: Scr, c: int, erase: int)
    requires ScrOk(g, s) && s.state == 2
    ensures c == 63 ==> Step(g, s, c, erase) == s.(par := Zeros(), npar := 0, state := 3, ques := true)
    ensures c != 63 ==> Step(g, s, c, erase) == Param(g, s.(par := Zeros(), npar := 0, state := 3, ques := false), c)
  {
  }

  /** A digit in state 3 accumulates into the current parameter, modulo
      2^32. */
  lemma DigitAccumulates(g: Video, s: Scr, c: int, erase: int)
    requires ScrOk(g, s) && s.state == 3 && 48 <= c <= 57
    ensures Step(g, s, c, erase) == s.(par := s.par[s.npar := Unsigned(10 * s.par[s.npar] + (c - 48))])
  {
  }

  /** ';' moves on to the next parameter while there is one; a seventeenth
      parameter ends the sequence, ';' being no final character. */
  lemma SemicolonNext(g: Video, s: Scr, erase: int)
    requires ScrOk(g, s) && s.state == 3
    ensures s.npar < NPAR - 1 ==> Step(g, s, 59, erase) == s.(npar := s.npar + 1)
    ensures s.npar == NPAR - 1 ==> Step(g, s, 59, erase) == s.(state := 0)
  {
  }

  /** ESC followed by '7' does not save the cursor unless the cursor happens
      to be in column 55, and then any character not handled before does. */
  lemma EscSevenQuirk(g: Video, s: Scr, c: int, erase: int)
    requires ScrOk(g, s) && s.state == 1 && !(c in {91, 69, 77, 68, 90})
    ensures s.x != 55 && s.x != 56 ==> Step(g, s, c, erase) == s.(state := 0)
    ensures s.x == 55 ==> Step(g, s, c, erase) == s.(state := 0, savedX := s.x, savedY := s.y)
  {
  }

  /** 'r' sets the scrolling region to lines par[0] to par[1] (counted from
      1, 0 taken as 1 and as the last line) exactly when they make one, and
      leaves it alone otherwise. */
  lemma RegionMeans(g: Video, s: Scr)
    requires ScrOk(g, s)
    ensures var t, b := Dec(s.par[0]), if s.par[1] == 0 then LINES else s.par[1];
      (t < b <= LINES <==> Region(g, s).top == t && Region(g, s).bottom == b) &&
      (!(t < b <= LINES) ==> Region(g, s).top == s.top && Region(g, s).bottom == s.bottom)
  {
  }

  /** A parameter csi_m acts on. */
  predicate Recognized(p: int)
  {
    p in {0, 27, 1, 4, 7}
  }

  /** The attribute csi_m leaves is the one the last recognized parameter
      selects, or the old one if no parameter is recognized. */
  lemma {:induction false} AttrLastWins(a: int, ps: seq<int>, i: int)
    requires -1 <= i < |ps| && (i >= 0 ==> Recognized(ps[i]))
    requires forall j :: i < j < |ps| ==> !Recognized(ps[j])
    ensures Attr(a, ps) == if i < 0 then a else Recolor(a, ps[i])
    decreases |ps|
  {
    if ps != [] {
      var init := ps[..|ps| - 1];
      if i == |ps| - 1 {
        assert Recognized(ps[i]);
        assert Attr(a, ps) == Recolor(Attr(a, init), ps[i]);
      } else {
        assert !Recognized(ps[|ps| - 1]);
        AttrLastWins(a, init, i);
      }
    }
  }

  /** A printable character goes into the cell under the cursor with the
      current attribute, and the cursor moves right; in the column past the
      end the cursor first goes to the start of the next line. */
  lemma PrintMeans(g: Video, s: Scr, c: int)
    requires ScrOk(g, s) && 31 < c < 127
    ensures s.x < g.columns ==> 0 <= Pos(g, s) < |s.video|
    ensures s.x < g.columns ==> Print(g, s, c) == s.(x := s.x + 1, video := s.video[Pos(g, s) := s.attr * 256 + c])
    ensures s.x == g.columns ==> Print(g, s, c).x == 1 && Print(g, s, c).y == Lf(g, s).y
  {
    PosIn(g, s);
  }

  /** TAB moves to the next multiple of 8, by 1 to 8 columns, and past the
      end of the row to the next line at that distance from its start. */
  lemma TabMeans(g: Video, s: Scr)
    requires ScrOk(g, s)
    ensures var nx := Tab(g, s).x;
      s.x + 8 - s.x % 8 <= g.columns ==> nx % 8 == 0 && s.x < nx <= s.x + 8 && Tab(g, s).y == s.y
    ensures s.x + 8 - s.x % 8 > g.columns ==> Tab(g, s).x == s.x + 8 - s.x % 8 - g.columns
  {
  }

  /** The cells insert_char leaves: e at p, the next n - 1 cells are the ones
      before them, the rest untouched. */
  lemma InsertAtMeans(v: seq<int>, p: int, n: int, e: int, k: int)
    requires 0 <= p && 1 <= n && p + n <= |v| && 0 <= k < |v|
    ensures InsertAt(v, p, n, e)[k] == if k == p then e else if p < k < p + n then v[k - 1] else v[k]
  {
    MoveAt(v, p, p + 1, n - 1, k);
  }

  /** The cells delete_char leaves: the n - 1 cells from p are the ones
      after them, e follows, the rest untouched. */
  lemma DeleteAtMeans(v: seq<int>, p: int, n: int, e: int, k: int)
    requires 0 <= p && 1 <= n && p + n <= |v| && 0 <= k < |v|
    ensures DeleteAt(v, p, n, e)[k] == if p <= k < p + n - 1 then v[k + 1] else if k == p + n - 1 then e else v[k]
  {
    MoveAt(v, p + 1, p, n - 1, k);
  }

  /** Deleting at p what was inserted there gives the row back, with the
      cell pushed out of the row put back at its end. */
  lemma DeleteUndoesInsert(v: seq<int>, p: int, n: int, e: int)
    requires 0 <= p && 1 <= n && p + n <= |v|
    ensures DeleteAt(InsertAt(v, p, n, e), p, n, v[p + n - 1]) == v
  {
    var w := InsertAt(v, p, n, e);
    forall k | 0 <= k < |v|
      ensures DeleteAt(w, p, n, v[p + n - 1])[k] == v[k]
    {
      DeleteAtMeans(w, p, n, v[p + n - 1], k);
      if k + 1 < |v| {
        InsertAtMeans(v, p, n, e, k + 1);
      }
      InsertAtMeans(v, p, n, e, k);
    }
  }

  /** scrup of a region (or on a card that does not scroll by origin): each
      line of the region takes the one below it and the bottom line is
      blank; nothing outside the region changes. */
  lemma ScrUpRegionMeans(g: Video, s: Scr, k: int)
    requires ScrOk(g, s) && !(g.ega && s.top == 0 && s.bottom == LINES) && 0 <= k < |s.video|
    ensures 0 <= s.origin + Span(g.columns, s.top) && s.origin + Span(g.columns, s.top) + g.columns <= s.origin + Span(g.columns, s.bottom) <= |s.video|
    ensures var lo, hi := s.origin + Span(g.columns, s.top), s.origin + Span(g.columns, s.bottom);
      ScrUp(g, s).video[k] ==
        if lo <= k < hi - g.columns then s.video[k + g.columns]
        else if hi - g.columns <= k < hi then ERASE
        else s.video[k]
    ensures ScrUp(g, s) == s.(video := ScrUp(g, s).video)
  {
    var c := g.columns;
    Rows(g, s.top, s.bottom);
    var dst := s.origin + Span(c, s.top);
    var n := Span(c, s.bottom) - Span(c, s.top) - c;
    FillAt(Move(s.video, dst + c, dst, n), dst + n, c, ERASE, k);
    MoveAt(s.video, dst + c, dst, n, k);
  }

  /** scrup of the whole screen on an EGA/VGA: the screen moves to the next
      row of video memory, or to the start of it when that would run past
      the end; either way what is on the screen moves up one line and the
      bottom line is blank. */
  lemma ScrUpScreenMeans(g: Video, s: Scr, k: int)
    requires ScrOk(g, s) && g.ega && s.top == 0 && s.bottom == LINES && 0 <= k < Span(g.columns, LINES)
    ensures var r := ScrUp(g, s);
      r.video[r.origin + k] == if k < Span(g.columns, LINES - 1) then s.video[s.origin + g.columns + k] else ERASE
    ensures ScrUp(g, s).origin == if s.origin + g.columns + Span(g.columns, LINES) > g.cells then 0 else s.origin + g.columns
  {
    var c := g.columns;
    Rows(g, LINES - 1, LINES);
    var o := s.origin + c;
    var n := Span(c, LINES - 1);
    if o + Span(c, LINES) > g.cells {
      FillAt(Move(s.video, o, 0, n), n, c, ERASE, k);
      MoveAt(s.video, o, 0, n, k);
    } else {
      FillAt(s.video, o + n, c, ERASE, o + k);
    }
  }

  /** scrdown: each line of the region takes the one above it and the top
      line is blank; nothing outside the region changes. */
  lemma ScrDownMeans(g: Video, s: Scr, k: int)
    requires ScrOk(g, s) && 0 <= k < |s.video|
    ensures 0 <= s.origin + Span(g.columns, s.top) && s.origin + Span(g.columns, s.top) + g.columns <= s.origin + Span(g.columns, s.bottom) <= |s.video|
    ensures var lo, hi := s.origin + Span(g.columns, s.top), s.origin + Span(g.columns, s.bottom);
      ScrDown(g, s).video[k] ==
        if lo <= k < lo + g.columns then ERASE
        else if lo + g.columns <= k < hi then s.video[k - g.columns]
        else s.video[k]
  {
    var c := g.columns;
    Rows(g, s.top, s.bottom);
    var src := s.origin + Span(c, s.top);
    var n := Span(c, s.bottom) - Span(c, s.top) - c;
    FillAt(Move(s.video, src, src + c, n), src, c, ERASE, k);
    MoveAt(s.video, src, src + c, n, k);
  }

  /** ESC [ 2 J blanks the screen and nothing else; ESC [ 2 K blanks the
      cursor's line. */
  lemma EraseMeans(g: Video, s: Scr, k: int)
    requires ScrOk(g, s) && 0 <= k < |s.video|
    ensures CsiJ(g, s, 2).video[k] == if s.origin <= k < ScrEnd(g, s) then ERASE else s.video[k]
    ensures var row := s.origin + Span(g.columns, s.y);
      CsiK(g, s, 2).video[k] == if row <= k < row + g.columns then ERASE else s.video[k]
  {
    PosIn(g, s);
    FillAt(s.video, s.origin, Span(g.columns, LINES), ERASE, k);
    FillAt(s.video, Pos(g, s) - s.x, g.columns, ERASE, k);
  }

  /** The answer to ESC Z lands on the read queue behind what is there when
      it fits. */
  lemma {:induction false} PutsAppend(q: seq<SChar>, r: seq<SChar>)
    requires |q| + |r| <= CAPACITY
    ensures Puts(q, r) == q + r
  {
    if r != [] {
      PutsAppend(q, r[..|r| - 1]);
      assert q + r == (q + r[..|r| - 1]) + [r[|r| - 1]];
    }
  }

  /** What setup.s left for con_init: the BIOS video mode, the column count
      (a byte), the low byte of the EGA BX value and the cursor position. */
  datatype Boot = Boot(mode: int, columns: int, egaBx: int, origX: int, origY: int)

  /** The display con_init picks: mode 7 is monochrome, anything else colour;
      an EGA BX low byte other than 0x10 means an EGA/VGA. Video memory runs
      from 0xb0000 (monochrome) or 0xb8000 (colour) to 0xb8000 (EGAm),
      0xb2000 (MDA), 0xbc000 (EGAc) or 0xba000 (CGA): 0x4000, 0x1000, 0x2000
      or 0x1000 cells. The name goes in the top right corner of the screen. */
  function Card(b: Boot): (r: (Video, seq<int>))
    ensures |r.1| == 4 && r.0.columns == b.columns
    ensures r.0.ega <==> b.egaBx != 0x10
  {
    if b.mode == 7 then
      if b.egaBx != 0x10 then (Video(b.columns, 0x4000, true), [69, 71, 65, 109])
      else (Video(b.columns, 0x1000, false), [42, 77, 68, 65])
    else
      if b.egaBx != 0x10 then (Video(b.columns, 0x2000, true), [69, 71, 65, 99])
      else (Video(b.columns, 0x1000, false), [42, 67, 71, 65])
  }

  /** The screen in mem with the characters of desc written from cell at,
      attributes kept. */
  function Label(mem: seq<int>, at: int, desc: seq<int>): (r: seq<int>)
    requires 0 <= at && at + |desc| <= |mem|
    ensures |r| == |mem|
  {
    if desc == [] then mem
    else Label(mem, at, desc[..|desc| - 1])[at + |desc| - 1 := mem[at + |desc| - 1] / 256 * 256 + desc[|desc| - 1]]
  }

  /** con_init: the display found, the label written, and the console's
      statics as they start (zero, attribute 0x07, the region the whole
      screen) with the cursor put where the BIOS left it. None when the
      column count is one this model does not take. */
  function ConInit(b: Boot, mem: seq<int>): (r: Option<(Video, Scr)>)
    requires |mem| == Card(b).0.cells
    ensures r.Some? <==> VideoOk(Card(b).0)
    ensures r.Some? ==> r.value.0 == Card(b).0 && ScrOk(r.value.0, r.value.1)
  {
    var (g, desc) := Card(b);
    if !VideoOk(g) then None
    else
      SpanIs(g.columns, LINES);
      var s := Scr(0, 0, 0, LINES, 0, 0, 0, Zeros(), false, 0x07, 0, 0, Label(mem, g.columns - 4, desc));
      Some((g, Gotoxy(g, s, b.origX, b.origY)))
  }

  lemma {:induction false} LabelMeans(mem: seq<int>, at: int, desc: seq<int>, k: int)
    requires 0 <= at && at + |desc| <= |mem| && 0 <= k < |mem|
    ensures Label(mem, at, desc)[k] == if at <= k < at + |desc| then mem[k] / 256 * 256 + desc[k - at] else mem[k]
  {
    if desc != [] {
      LabelMeans(mem, at, desc[..|desc| - 1], k);
    }
  }

  /** con_init puts the cursor where the BIOS left it when that is on the
      screen and at the top left corner otherwise, and labels the last four
      cells of the top line with the display's name. */
  lemma ConInitMeans(b: Boot, mem: seq<int>, k: int)
    requires |mem| == Card(b).0.cells && VideoOk(Card(b).0) && 0 <= b.origX < 256 && 0 <= b.origY < 256
    ensures var (g, s) := ConInit(b, mem).value;
      (b.origX <= g.columns && b.origY < LINES ==> s.x == b.origX && s.y == b.origY) &&
      (!(b.origX <= g.columns && b.origY < LINES) ==> s.x == 0 && s.y == 0) &&
      s.origin == 0 && s.top == 0 && s.bottom == LINES && s.state == 0 && s.attr == 0x07
    ensures var (g, s) := ConInit(b, mem).value;
      0 <= k < 4 ==> s.video[g.columns - 4 + k] % 256 == Card(b).1[k]
  {
    var (g, desc) := Card(b);
    SpanIs(g.columns, LINES);
    if 0 <= k < 4 {
      LabelMeans(mem, g.columns - 4, desc, g.columns - 4 + k);
    }
  }
}
