// The line editor: scancodes in, an edited line out, and a ring of the last
// sixteen lines that Up and Down bring back.

module Keyboard {
  type Scancode = n: nat | n < 256

  const BS: char := 8 as char

  const LO: string :=
    ("\0\0" + "1234567890-=" + [BS] + "\t" + "qwertyuiop[]") +
    (("\n\0" + "asdfghjkl;'`" + "\0") + ("\\zxcvbnm,./" + "\0*\0 "))
  const UP: string :=
    ("\0\0" + "!@#$%^&*()_+" + [BS] + "\t" + "QWERTYUIOP{}") +
    (("\n\0" + "ASDFGHJKL:\"~" + "\0") + ("|ZXCVBNM<>?" + "\0*\0 "))

  const HIST_MAX: nat := 16
  const HIST_LEN: nat := 256

  lemma TableSizes()
    ensures |LO| == 58 && |UP| == 58
  {
  }

  function Min(m: nat, n: nat): nat { if m < n then m else n }

  function Cut(s: string, n: nat): string { s[..Min(|s|, n)] }

  // ---------- the editor on values ----------

  // The line so far, where in the history it came from, and the modifiers.
  datatype Edit = Edit(text: string, pos: nat, shift: bool, caps: bool, extended: bool)

  function Fresh(lines: seq<string>): Edit {
    Edit("", |lines|, false, false, false)
  }

  // The character of a plain key press, or 0.
  function KeyChar(e: Edit, sc: Scancode): char
    requires sc < 58
  {
    TableSizes();
    if e.shift != e.caps then UP[sc] else LO[sc]
  }

  predicate IsModifier(sc: Scancode) {
    sc == 0x2A || sc == 0x36 || sc == 0xAA || sc == 0xB6 || sc == 0x3A
  }

  // A key press that stands for a character; the tables have 58 entries.
  predicate IsPlain(e: Edit, sc: Scancode) {
    !e.extended && !IsModifier(sc) && sc < 58
  }

  predicate IsEnter(e: Edit, sc: Scancode) {
    IsPlain(e, sc) && KeyChar(e, sc) == '\n'
  }

  // The oldest line still in the ring.
  function Oldest(lines: seq<string>): nat {
    |lines| - Min(|lines|, HIST_MAX)
  }

  function Typed(e: Edit, c: char): Edit {
    if c == '\0' || c == '\n' then e
    else if c == BS then e.(text := Cut(e.text, if e.text == "" then 0 else |e.text| - 1))
    else e.(text := e.text + [c])
  }

  // What a scancode other than Enter does to a line of fewer than max - 1 characters.
  function Step(e: Edit, sc: Scancode, lines: seq<string>, max: nat): Edit
    requires max >= 1
  {
    if sc == 0xE0 then e.(extended := true)
    else if e.extended then Arrow(e.(extended := false), sc, lines, max)
    else if sc == 0x2A || sc == 0x36 then e.(shift := true)
    else if sc == 0xAA || sc == 0xB6 then e.(shift := false)
    else if sc == 0x3A then e.(caps := !e.caps)
    else if sc >= 58 then e
    else Typed(e, KeyChar(e, sc))
  }

  // Up goes to an older line, Down to a newer one or to an empty one.
  function Arrow(e: Edit, sc: Scancode, lines: seq<string>, max: nat): Edit
    requires max >= 1
  {
    if sc == 0x48 && Oldest(lines) < e.pos <= |lines| then e.(pos := e.pos - 1, text := Cut(lines[e.pos - 1], max - 1))
    else if sc == 0x50 && e.pos + 1 < |lines| then e.(pos := e.pos + 1, text := Cut(lines[e.pos + 1], max - 1))
    else if sc == 0x50 && e.pos + 1 == |lines| then e.(pos := e.pos + 1, text := "")
    else e
  }

  // Editing goes on until Enter, a full buffer or the end of the scancodes.
  function Edited(e: Edit, stream: seq<Scancode>, lines: seq<string>, max: nat): Edit
    requires max >= 1
    decreases |stream|
  {
    if stream == [] || |e.text| >= max - 1 || IsEnter(e, stream[0]) then e
    else Edited(Step(e, stream[0], lines, max), stream[1..], lines, max)
  }

  // The scancodes not looked at when editing stops.
  function Unread(e: Edit, stream: seq<Scancode>, lines: seq<string>, max: nat): seq<Scancode>
    requires max >= 1
    decreases |stream|
  {
    if stream == [] || |e.text| >= max - 1 || IsEnter(e, stream[0]) then stream
    else Unread(Step(e, stream[0], lines, max), stream[1..], lines, max)
  }

  // ---------- what the keys type ----------

  const BACKSPACE: Scancode := 0x0E
  const ENTER: Scancode := 0x1C

  // The keys that stand for characters, by the rows of a PC keyboard in scancode set 1.
  datatype Row = Digits | Top | Home | Bottom | Tab | Star | Space {
    // The scancode of the leftmost key.
    function First(): (sc: nat)
      ensures sc + |Low()| <= 58 && |Low()| == |High()|
    {
      match this
      case Digits => 0x02 case Top => 0x10 case Home => 0x1E case Bottom => 0x2B
      case Tab => 0x0F case Star => 0x37 case Space => 0x39
    }

    function Low(): string {
      match this
      case Digits => "1234567890-=" case Top => "qwertyuiop[]"
      case Home => "asdfghjkl;'`" case Bottom => "\\zxcvbnm,./"
      case Tab => "\t" case Star => "*" case Space => " "
    }

    function High(): string {
      match this
      case Digits => "!@#$%^&*()_+" case Top => "QWERTYUIOP{}"
      case Home => "ASDFGHJKL:\"~" case Bottom => "|ZXCVBNM<>?"
      case Tab => "\t" case Star => "*" case Space => " "
    }
  }

  // The j-th key of a row.
  datatype Key = Key(row: Row, j: nat) {
    predicate Exists() { j < |row.Low()| }

    function Code(): (sc: Scancode)
      requires Exists()
      ensures sc < 58 && !IsModifier(sc) && sc != BACKSPACE && sc != ENTER
    {
      row.First() + j
    }

    // What the key gives, in the upper case of its row or in the lower.
    function Char(upper: bool): char
      requires Exists()
    {
      assert row.First() >= 0;
      if upper then row.High()[j] else row.Low()[j]
    }
  }

  lemma LowerTable(key: Key)
    requires key.Exists()
    ensures |LO| == 58 && LO[key.Code()] == key.row.Low()[key.j]
  {
    match key.row
    case Digits => assert LO[2 + key.j] == "1234567890-="[key.j];
    case Top => assert LO[16 + key.j] == "qwertyuiop[]"[key.j];
    case Home => assert LO[30 + key.j] == "asdfghjkl;'`"[key.j];
    case Bottom => assert LO[43 + key.j] == "\\zxcvbnm,./"[key.j];
    case Tab =>
    case Star =>
    case Space =>
  }

  lemma UpperTable(key: Key)
    requires key.Exists()
    ensures |UP| == 58 && UP[key.Code()] == key.row.High()[key.j]
  {
    match key.row
    case Digits => assert UP[2 + key.j] == "!@#$%^&*()_+"[key.j];
    case Top => assert UP[16 + key.j] == "QWERTYUIOP{}"[key.j];
    case Home => assert UP[30 + key.j] == "ASDFGHJKL:\"~"[key.j];
    case Bottom => assert UP[43 + key.j] == "|ZXCVBNM<>?"[key.j];
    case Tab =>
    case Star =>
    case Space =>
  }

  // A key of a row gives the upper of its two characters exactly when one of shift
  // and caps is on.
  lemma RowTypes(e: Edit, key: Key)
    requires key.Exists()
    ensures KeyChar(e, key.Code()) == key.Char(e.shift != e.caps)
  {
    LowerTable(key);
    UpperTable(key);
  }

  // The keys that give nothing: none, Escape, Ctrl, both shifts and Alt.
  predicate IsDead(sc: Scancode) {
    sc == 0 || sc == 1 || sc == 0x1D || sc == 0x2A || sc == 0x36 || sc == 0x38
  }

  // The key with this scancode in its row.
  function KeyOf(sc: Scancode): (key: Key)
    requires sc < 58 && sc != BACKSPACE && sc != ENTER && !IsDead(sc)
    ensures key.Exists() && key.Code() == sc
  {
    if sc < 0x0E then Key(Digits, sc - 0x02)
    else if sc == 0x0F then Key(Tab, 0)
    else if sc < 0x1C then Key(Top, sc - 0x10)
    else if sc < 0x2A then Key(Home, sc - 0x1E)
    else if sc < 0x36 then Key(Bottom, sc - 0x2B)
    else if sc == 0x37 then Key(Star, 0)
    else Key(Space, 0)
  }

  lemma RowsPrint(key: Key, upper: bool)
    requires key.Exists()
    ensures Plain(key.Char(upper))
  {
    match key.row
    case Digits => case Top => case Home => case Bottom => case Tab => case Star => case Space =>
  }

  // Enter and Backspace are one key each, six keys give nothing and the others print.
  lemma KeysAre(e: Edit, sc: Scancode)
    requires sc < 58
    ensures KeyChar(e, sc) == '\n' <==> sc == ENTER
    ensures KeyChar(e, sc) == BS <==> sc == BACKSPACE
    ensures KeyChar(e, sc) == '\0' <==> IsDead(sc)
    ensures sc != ENTER && sc != BACKSPACE && !IsDead(sc) ==> KeyChar(e, sc) == KeyOf(sc).Char(e.shift != e.caps)
  {
    if sc != ENTER && sc != BACKSPACE && !IsDead(sc) {
      hide KeyChar;
      RowTypes(e, KeyOf(sc));
      RowsPrint(KeyOf(sc), e.shift != e.caps);
    } else {
      TableSizes();
    }
  }

  predicate IsLetter(sc: Scancode) {
    0x10 <= sc < 0x1A || 0x1E <= sc < 0x27 || 0x2C <= sc < 0x33
  }

  // A letter key types a lower-case letter exactly when shift and caps agree, and
  // otherwise the same letter in upper case.
  lemma LetterCase(e: Edit, sc: Scancode)
    requires IsLetter(sc)
    ensures e.shift == e.caps ==> 'a' <= KeyChar(e, sc) <= 'z'
    ensures e.shift != e.caps ==> 'A' <= KeyChar(e, sc) <= 'Z'
    ensures e.shift == e.caps ==>
              KeyChar(e.(shift := !e.shift), sc) as int == KeyChar(e.(caps := !e.caps), sc) as int
                                                        == KeyChar(e, sc) as int - 32
  {
    hide KeyChar;
    var key := KeyOf(sc);
    RowTypes(e, key);
    RowTypes(e.(shift := !e.shift), key);
    RowTypes(e.(caps := !e.caps), key);
    LettersOf(key);
  }

  lemma LettersOf(key: Key)
    requires key.Exists() && IsLetter(key.Code())
    ensures 'a' <= key.Char(false) <= 'z' && 'A' <= key.Char(true) <= 'Z'
    ensures key.Char(true) as int == key.Char(false) as int - 32
  {
    match key.row
    case Digits => case Top => case Home => case Bottom => case Tab => case Star => case Space =>
  }

  // ---------- what editing keeps ----------

  predicate Plain(c: char) { c != '\0' && c != '\n' && c != BS }

  predicate PlainText(s: string) {
    forall k :: 0 <= k < |s| ==> Plain(s[k])
  }

  ghost predicate PlainLines(lines: seq<string>) {
    forall n :: 0 <= n < |lines| ==> PlainText(lines[n]) && 0 < |lines[n]| <= 255
  }

  // The line fits the buffer, holds only characters, and its place is in the ring.
  ghost predicate Sound(e: Edit, lines: seq<string>, max: nat) {
    |e.text| <= max - 1 && PlainText(e.text) && Oldest(lines) <= e.pos <= |lines|
  }

  lemma StepSound(e: Edit, sc: Scancode, lines: seq<string>, max: nat)
    requires max >= 1 && PlainLines(lines) && Sound(e, lines, max) && |e.text| < max - 1
    ensures Sound(Step(e, sc, lines, max), lines, max)
  {
    hide KeyChar, Typed, Arrow;
    ArrowSound(e.(extended := false), sc, lines, max);
    if sc < 58 {
      TypedSound(e, KeyChar(e, sc), max);
    }
  }

  lemma TypedSound(e: Edit, c: char, max: nat)
    requires PlainText(e.text) && |e.text| < max - 1
    ensures var e1 := Typed(e, c); PlainText(e1.text) && |e1.text| <= max - 1 && e1.pos == e.pos
  {
  }

  lemma ArrowSound(e: Edit, sc: Scancode, lines: seq<string>, max: nat)
    requires max >= 1 && PlainLines(lines) && Sound(e, lines, max)
    ensures Sound(Arrow(e, sc, lines, max), lines, max)
  {
    if sc == 0x48 && Oldest(lines) < e.pos <= |lines| {
      assert PlainText(lines[e.pos - 1]);
    } else if sc == 0x50 && e.pos + 1 < |lines| {
      assert PlainText(lines[e.pos + 1]);
    }
  }

  lemma {:induction false} EditedSound(e: Edit, stream: seq<Scancode>, lines: seq<string>, max: nat)
    requires max >= 1 && PlainLines(lines) && Sound(e, lines, max)
    ensures Sound(Edited(e, stream, lines, max), lines, max)
    decreases |stream|
  {
    if stream == [] || |e.text| >= max - 1 || IsEnter(e, stream[0]) {
    } else {
      hide Step, IsEnter, Sound;
      StepOf(e, stream[0], lines, max);
      EditedSound(Step(e, stream[0], lines, max), stream[1..], lines, max);
    }
  }

  lemma StepOf(e: Edit, sc: Scancode, lines: seq<string>, max: nat)
    requires max >= 1 && PlainLines(lines) && Sound(e, lines, max)
    ensures |e.text| <= max - 1
    ensures |e.text| < max - 1 ==> Sound(Step(e, sc, lines, max), lines, max)
  {
    if |e.text| < max - 1 {
      StepSound(e, sc, lines, max);
    }
  }

  // ---------- typing ----------

  // Editing this stream comes to the same as editing that one from there.
  ghost predicate Leads(e: Edit, stream: seq<Scancode>, e1: Edit, rest: seq<Scancode>, lines: seq<string>, max: nat)
    requires max >= 1
  {
    && Edited(e, stream, lines, max) == Edited(e1, rest, lines, max)
    && Unread(e, stream, lines, max) == Unread(e1, rest, lines, max)
  }

  lemma OneStep(e: Edit, sc: Scancode, rest: seq<Scancode>, lines: seq<string>, max: nat)
    requires max >= 1 && |e.text| < max - 1 && !IsEnter(e, sc)
    ensures Leads(e, [sc] + rest, Step(e, sc, lines, max), rest, lines, max)
  {
    assert ([sc] + rest)[1..] == rest;
  }

  lemma TwoSteps(e: Edit, sc: Scancode, sd: Scancode, rest: seq<Scancode>, lines: seq<string>, max: nat)
    requires max >= 1 && |e.text| < max - 1 && !IsEnter(e, sc)
    requires var e1 := Step(e, sc, lines, max); |e1.text| < max - 1 && !IsEnter(e1, sd)
    ensures Leads(e, [sc, sd] + rest, Step(Step(e, sc, lines, max), sd, lines, max), rest, lines, max)
  {
    hide Step, IsEnter, Edited, Unread;
    OneStep(e, sc, [sd] + rest, lines, max);
    OneStep(Step(e, sc, lines, max), sd, rest, lines, max);
    assert [sc] + ([sd] + rest) == [sc, sd] + rest;
  }

  // Pressing and releasing a shift key leaves everything as it was without shift.
  lemma ShiftReleased(e: Edit, right: bool, rest: seq<Scancode>, lines: seq<string>, max: nat)
    requires max >= 1 && |e.text| < max - 1 && !e.extended && !e.shift
    ensures Leads(e, (if right then [0x36, 0xB6] else [0x2A, 0xAA]) + rest, e, rest, lines, max)
  {
    hide Edited, Unread, KeyChar;
    TwoSteps(e, if right then 0x36 else 0x2A, if right then 0xB6 else 0xAA, rest, lines, max);
    assert e.(shift := true).(shift := false) == e;
  }

  // Caps changes over when it is pressed, and pressed twice leaves everything as it was.
  lemma CapsTwice(e: Edit, rest: seq<Scancode>, lines: seq<string>, max: nat)
    requires max >= 1 && |e.text| < max - 1 && !e.extended
    ensures Leads(e, [0x3A, 0xBA] + rest, e.(caps := !e.caps), rest, lines, max)
    ensures Leads(e, [0x3A, 0x3A] + rest, e, rest, lines, max)
  {
    hide Edited, Unread, KeyChar;
    TwoSteps(e, 0x3A, 0xBA, rest, lines, max);
    TwoSteps(e, 0x3A, 0x3A, rest, lines, max);
    assert e.(caps := !e.caps).(caps := !!e.caps) == e;
  }

  // A key that prints adds the character that stands on it.
  lemma KeyPrints(e: Edit, key: Key, lines: seq<string>, max: nat)
    requires max >= 1 && !e.extended && key.Exists()
    ensures !IsEnter(e, key.Code())
    ensures Step(e, key.Code(), lines, max) == e.(text := e.text + [key.Char(e.shift != e.caps)])
  {
    hide KeyChar;
    RowTypes(e, key);
    RowsPrint(key, e.shift != e.caps);
  }

  // Backspace takes the last character away and does nothing to an empty line.
  lemma BackspaceErases(e: Edit, lines: seq<string>, max: nat)
    requires max >= 1 && !e.extended
    ensures !IsEnter(e, BACKSPACE)
    ensures Step(e, BACKSPACE, lines, max) == if e.text == "" then e else e.(text := e.text[..|e.text| - 1])
  {
    hide KeyChar;
    KeysAre(e, BACKSPACE);
  }

  // Backspace undoes a key that prints, as long as its character does not fill the buffer.
  lemma BackspaceUndoes(e: Edit, key: Key, rest: seq<Scancode>, lines: seq<string>, max: nat)
    requires max >= 1 && !e.extended && key.Exists() && |e.text| + 1 < max - 1
    ensures Leads(e, [key.Code(), BACKSPACE] + rest, e, rest, lines, max)
  {
    hide Edited, Unread, IsEnter, Step;
    KeyPrints(e, key, lines, max);
    var e1 := Step(e, key.Code(), lines, max);
    BackspaceErases(e1, lines, max);
    TwoSteps(e, key.Code(), BACKSPACE, rest, lines, max);
    assert e1.text[..|e1.text| - 1] == e.text;
    assert e1.(text := e.text) == e;
  }

  // A key pressed and released, alone or with a shift key held around it.
  datatype Stroke = Bare(key: Key) | Left(key: Key) | Right(key: Key) {
    function Codes(): seq<Scancode>
      requires key.Exists()
    {
      match this
      case Bare(_) => [key.Code(), key.Code() + 0x80]
      case Left(_) => [0x2A, key.Code(), key.Code() + 0x80, 0xAA]
      case Right(_) => [0x36, key.Code(), key.Code() + 0x80, 0xB6]
    }

    // The character on the key: the upper one exactly when one of shift and caps is on.
    function Char(caps: bool): char
      requires key.Exists()
    {
      key.Char(!Bare? != caps)
    }
  }

  ghost predicate Playable(strokes: seq<Stroke>) {
    forall k :: 0 <= k < |strokes| ==> strokes[k].key.Exists()
  }

  function CodesOf(strokes: seq<Stroke>): seq<Scancode>
    requires Playable(strokes)
  {
    if strokes == [] then [] else strokes[0].Codes() + CodesOf(strokes[1..])
  }

  // What stands on the keys, read off with caps off or on.
  function TextOf(strokes: seq<Stroke>, caps: bool): string
    requires Playable(strokes)
  {
    if strokes == [] then "" else [strokes[0].Char(caps)] + TextOf(strokes[1..], caps)
  }

  // A stroke adds the character of its key and lets go of shift again.
  lemma StrokeTypes(e: Edit, stroke: Stroke, rest: seq<Scancode>, lines: seq<string>, max: nat)
    requires max >= 1 && !e.extended && !e.shift && stroke.key.Exists() && |e.text| + 1 < max - 1
    ensures var e1 := e.(text := e.text + [stroke.Char(e.caps)]);
            Leads(e, stroke.Codes() + rest, e1, rest, lines, max)
  {
    hide Edited, Unread, KeyChar, Typed;
    var key := stroke.key;
    var sc := key.Code();
    if stroke.Bare? {
      KeyPrints(e, key, lines, max);
      TwoSteps(e, sc, sc + 0x80, rest, lines, max);
    } else {
      var down: Scancode := if stroke.Left? then 0x2A else 0x36;
      var held := e.(shift := true);
      KeyPrints(held, key, lines, max);
      var typed := Step(held, sc, lines, max);
      TwoSteps(e, down, sc, [sc + 0x80, down + 0x80] + rest, lines, max);
      TwoSteps(typed, sc + 0x80, down + 0x80, rest, lines, max);
      assert [down, sc] + ([sc + 0x80, down + 0x80] + rest) == stroke.Codes() + rest;
    }
  }

  // Typing strokes of keys types what stands on them, while it fits the buffer.
  lemma {:induction false} TypingTypes(e: Edit, strokes: seq<Stroke>, rest: seq<Scancode>, lines: seq<string>,
                                       max: nat)
    requires max >= 1 && !e.extended && !e.shift && Playable(strokes) && |e.text| + |strokes| < max - 1
    ensures Leads(e, CodesOf(strokes) + rest, e.(text := e.text + TextOf(strokes, e.caps)), rest, lines, max)
    decreases |strokes|
  {
    hide Edited, Unread, CodesOf, TextOf, Stroke.Codes, Stroke.Char;
    if strokes == [] {
      NoStrokes(e.caps);
      assert e.text + "" == e.text && [] + rest == rest;
    } else {
      var stroke, more := strokes[0], strokes[1..];
      var c := stroke.Char(e.caps);
      StrokeTypes(e, stroke, CodesOf(more) + rest, lines, max);
      TypingTypes(e.(text := e.text + [c]), more, rest, lines, max);
      FirstStroke(strokes, e.caps);
      assert stroke.Codes() + CodesOf(more) + rest == stroke.Codes() + (CodesOf(more) + rest);
      assert e.text + [c] + TextOf(more, e.caps) == e.text + ([c] + TextOf(more, e.caps));
    }
  }

  lemma NoStrokes(caps: bool)
    ensures CodesOf([]) == [] && TextOf([], caps) == ""
  {
  }

  lemma FirstStroke(strokes: seq<Stroke>, caps: bool)
    requires Playable(strokes) && strokes != []
    ensures CodesOf(strokes) == strokes[0].Codes() + CodesOf(strokes[1..])
    ensures TextOf(strokes, caps) == [strokes[0].Char(caps)] + TextOf(strokes[1..], caps)
  {
  }

  // A line typed and ended by Enter is the text that stands on its keys.
  lemma LineIsTyped(strokes: seq<Stroke>, more: seq<Scancode>, lines: seq<string>, max: nat)
    requires max >= 1 && Playable(strokes) && |strokes| < max - 1
    ensures var stream := CodesOf(strokes) + [ENTER] + more;
            && Edited(Fresh(lines), stream, lines, max).text == TextOf(strokes, false)
            && Unread(Fresh(lines), stream, lines, max) == [ENTER] + more
  {
    hide Step, KeyChar, Edited, Unread, CodesOf, TextOf;
    TypingTypes(Fresh(lines), strokes, [ENTER] + more, lines, max);
    var e := Fresh(lines).(text := "" + TextOf(strokes, false));
    KeysAre(e, ENTER);
    EditedOf(e, [ENTER] + more, lines, max);
    assert CodesOf(strokes) + [ENTER] + more == CodesOf(strokes) + ([ENTER] + more);
    TextLength(strokes, false);
  }

  lemma {:induction false} TextLength(strokes: seq<Stroke>, caps: bool)
    requires Playable(strokes)
    ensures |TextOf(strokes, caps)| == |strokes|
  {
    if strokes != [] {
      TextLength(strokes[1..], caps);
    }
  }

  // ---------- recalling lines ----------

  function UpKey(): seq<Scancode> { [0xE0, 0x48] }

  function DownKey(): seq<Scancode> { [0xE0, 0x50] }

  function Presses(key: seq<Scancode>, k: nat): seq<Scancode> {
    if k == 0 then [] else key + Presses(key, k - 1)
  }

  // One press of an arrow key in the middle of editing.
  lemma ArrowPressed(e: Edit, sc: Scancode, rest: seq<Scancode>, lines: seq<string>, max: nat)
    requires max >= 1 && |e.text| < max - 1 && !e.extended && (sc == 0x48 || sc == 0x50)
    ensures Edited(e, [0xE0, sc] + rest, lines, max) == Edited(Arrow(e, sc, lines, max), rest, lines, max)
  {
    var s := [0xE0, sc] + rest;
    assert s[1..] == [sc] + rest && s[1..][1..] == rest;
    var e1 := e.(extended := true);
    assert Step(e, 0xE0, lines, max) == e1;
    assert Edited(e, s, lines, max) == Edited(e1, s[1..], lines, max);
    assert e1.(extended := false) == e;
    assert Step(e1, sc, lines, max) == Arrow(e, sc, lines, max);
  }

  // k presses of Up show the k-th last line, as far back as the ring goes.
  lemma {:induction false} UpRecalls(e: Edit, k: nat, lines: seq<string>, max: nat)
    requires max >= 1 && |e.text| < max - 1 && !e.extended
    requires Oldest(lines) + k <= e.pos <= |lines| && k > 0
    requires forall n :: e.pos - k <= n < e.pos ==> |lines[n]| < max - 1
    ensures var r := Edited(e, Presses(UpKey(), k), lines, max);
            r.pos == e.pos - k && r.text == lines[e.pos - k] && !r.extended
    decreases k
  {
    ArrowPressed(e, 0x48, Presses(UpKey(), k - 1), lines, max);
    if k > 1 {
      assert |lines[e.pos - 1]| < max - 1;
      UpRecalls(Arrow(e, 0x48, lines, max), k - 1, lines, max);
    }
  }

  // Down undoes Up, as long as neither end of the history is passed.
  lemma DownUndoesUp(e: Edit, lines: seq<string>, max: nat)
    requires max >= 1 && |e.text| < max - 1 && !e.extended && Oldest(lines) < e.pos <= |lines|
    requires |lines[e.pos - 1]| < max - 1
    ensures var r := Edited(e, UpKey() + DownKey(), lines, max);
            r.pos == e.pos && r.text == if e.pos == |lines| then "" else Cut(lines[e.pos], max - 1)
  {
    ArrowPressed(e, 0x48, DownKey(), lines, max);
    assert DownKey() + [] == DownKey();
    ArrowPressed(Arrow(e, 0x48, lines, max), 0x50, [], lines, max);
  }

  // At either end of the ring an arrow changes nothing.
  lemma ArrowsStop(e: Edit, rest: seq<Scancode>, lines: seq<string>, max: nat)
    requires max >= 1 && |e.text| < max - 1 && !e.extended
    ensures e.pos <= Oldest(lines) ==> Edited(e, UpKey() + rest, lines, max) == Edited(e, rest, lines, max)
    ensures e.pos >= |lines| ==> Edited(e, DownKey() + rest, lines, max) == Edited(e, rest, lines, max)
  {
    ArrowPressed(e, 0x48, rest, lines, max);
    ArrowPressed(e, 0x50, rest, lines, max);
  }

  // Nor does any other key behind the prefix, or letting go of a key but shift.
  lemma KeysIgnored(e: Edit, sc: Scancode, rest: seq<Scancode>, lines: seq<string>, max: nat)
    requires max >= 1 && |e.text| < max - 1 && !e.extended && sc != 0xE0
    ensures sc != 0x48 && sc != 0x50 ==> Leads(e, [0xE0, sc] + rest, e, rest, lines, max)
    ensures sc >= 0x80 && sc != 0xAA && sc != 0xB6 ==> Leads(e, [sc] + rest, e, rest, lines, max)
  {
    hide Edited, Unread, KeyChar, Typed;
    assert e.(extended := true).(extended := false) == e;
    if sc != 0x48 && sc != 0x50 {
      TwoSteps(e, 0xE0, sc, rest, lines, max);
    }
    if sc >= 0x80 {
      OneStep(e, sc, rest, lines, max);
    }
  }

  // A recalled line that fills the buffer is submitted at once, and only then.
  lemma RecallSubmits(e: Edit, lines: seq<string>, max: nat)
    requires max >= 1 && |e.text| < max - 1 && !e.extended && Oldest(lines) < e.pos <= |lines|
    ensures |Edited(e, UpKey(), lines, max).text| >= max - 1 <==> |lines[e.pos - 1]| >= max - 1
  {
    assert UpKey() + [] == UpKey();
    ArrowPressed(e, 0x48, [], lines, max);
  }

  // ---------- the echo ----------

  // What a terminal shows for these characters: a backspace takes one back.
  function Shown(echo: seq<char>): string {
    if echo == [] then ""
    else
      var before, c := Shown(echo[..|echo| - 1]), echo[|echo| - 1];
      if c == BS then Cut(before, if before == "" then 0 else |before| - 1) else before + [c]
  }

  lemma ShownMore(echo: seq<char>, c: char)
    ensures Shown(echo + [c]) ==
            if c != BS then Shown(echo) + [c] else Cut(Shown(echo), if Shown(echo) == "" then 0 else |Shown(echo)| - 1)
  {
    assert (echo + [c])[..|echo|] == echo;
  }

  // ---------- the editor in memory ----------

  // Row slot of the ring holds this line and its terminator.
  ghost predicate Holds(history: array2<char>, slot: nat, line: string)
    reads history
  {
    && slot < history.Length0 && |line| < history.Length1
    && (forall k :: 0 <= k < |line| ==> history[slot, k] == line[k])
    && history[slot, |line|] == '\0'
  }

  // The codes outside the tables are the extended ones.
  ghost predicate Readable(stream: seq<Scancode>) {
    forall k :: 0 <= k < |stream| ==>
      stream[k] <= 58 || stream[k] >= 128 || (k > 0 && stream[k - 1] == 0xE0)
  }

  lemma NothingShown()
    ensures Shown([]) == ""
  {
  }

  // One turn of editing, or its end.
  lemma EditedOf(e: Edit, stream: seq<Scancode>, lines: seq<string>, max: nat)
    requires max >= 1
    ensures if stream == [] || |e.text| >= max - 1 || IsEnter(e, stream[0])
            then Edited(e, stream, lines, max) == e && Unread(e, stream, lines, max) == stream
            else
              var next := Step(e, stream[0], lines, max);
              && Edited(e, stream, lines, max) == Edited(next, stream[1..], lines, max)
              && Unread(e, stream, lines, max) == Unread(next, stream[1..], lines, max)
  {
  }

  lemma ReadableAt(stream: seq<Scancode>, k: nat)
    requires Readable(stream) && k < |stream|
    ensures stream[k] <= 58 || stream[k] >= 128 || (k > 0 && stream[k - 1] == 0xE0)
  {
  }

  // The cases of a step, in the order they are tested.
  lemma StepCases(e: Edit, sc: Scancode, lines: seq<string>, max: nat)
    requires max >= 1
    ensures sc == 0xE0 ==> Step(e, sc, lines, max) == e.(extended := true) && !IsEnter(e, sc)
    ensures sc != 0xE0 && e.extended ==>
              Step(e, sc, lines, max) == Arrow(e.(extended := false), sc, lines, max) && !IsEnter(e, sc)
    ensures sc != 0xE0 && e.extended && sc != 0x48 && sc != 0x50 ==>
              Step(e, sc, lines, max) == e.(extended := false)
    ensures sc != 0xE0 && !e.extended && IsModifier(sc) ==>
              !IsEnter(e, sc) &&
              Step(e, sc, lines, max) ==
                if sc == 0x3A then e.(caps := !e.caps) else e.(shift := sc == 0x2A || sc == 0x36)
    ensures IsPlain(e, sc) ==> Step(e, sc, lines, max) == Typed(e, KeyChar(e, sc))
    ensures sc != 0xE0 && !e.extended && !IsModifier(sc) && sc >= 58 ==>
              Step(e, sc, lines, max) == e && !IsEnter(e, sc)
  {
  }

  // The new line takes the slot of the line that leaves the ring.
  lemma RingMoves(lines: seq<string>, line: string)
    ensures forall n :: Oldest(lines + [line]) <= n < |lines| ==> Oldest(lines) <= n && n % 16 != |lines| % 16
  {
  }

  class LineEditor {
    const history: array2<char>
    var histCount: nat
    var histHead: nat
    ghost var lines: seq<string> // the non-empty lines submitted, oldest first
    ghost var echo: seq<char>    // the characters sent to the terminal

    ghost predicate Valid()
      reads this, history
    {
      && history.Length0 == HIST_MAX && history.Length1 == HIST_LEN
      && histHead == |lines| && histCount == Min(|lines|, HIST_MAX) && PlainLines(lines)
      && forall n :: Oldest(lines) <= n < |lines| ==> Holds(history, n % 16, lines[n])
    }

    constructor ()
      ensures Valid() && lines == [] && echo == []
    {
      history := new char[HIST_MAX, HIST_LEN]((_, _) => '\0');
      histCount, histHead, lines, echo := 0, 0, [], [];
    }

    method Putchar(c: char)
      modifies this`echo
      ensures echo == old(echo) + [c]
    {
      echo := echo + [c];
    }

    // Copies the line and a terminator into row slot.
    method StoreLine(buf: array<char>, slot: nat, ghost text: string)
      requires history.Length0 == HIST_MAX && history.Length1 == HIST_LEN && slot < HIST_MAX
      requires PlainText(text) && |text| < buf.Length && buf[..|text|] == text && buf[|text|] == '\0'
      modifies history
      ensures Holds(history, slot, Cut(text, 255))
      ensures forall s, k :: 0 <= s < HIST_MAX && 0 <= k < HIST_LEN && s != slot ==> history[s, k] == old(history[s, k])
    {
      assert forall k :: 0 <= k < |text| ==> buf[k] == buf[..|text|][k] && Plain(text[k]);
      var i := 0;
      while buf[i] != '\0' && i < HIST_LEN - 1
        invariant i <= |text| && i <= 255
        invariant forall k :: 0 <= k < i ==> history[slot, k] == text[k]
        invariant forall s, k :: 0 <= s < HIST_MAX && 0 <= k < HIST_LEN && s != slot ==>
                    history[s, k] == old(history[s, k])
        decreases |text| - i
      {
        history[slot, i] := buf[i];
        i := i + 1;
      }
      history[slot, i] := '\0';
    }

    // A non-empty line goes into the slot of the oldest, cut to 255 characters.
    method HistAdd(buf: array<char>, ghost text: string)
      requires Valid() && PlainText(text) && |text| < buf.Length && buf[..|text|] == text && buf[|text|] == '\0'
      modifies history, this`histCount, this`histHead, this`lines
      ensures Valid() && lines == old(lines) + if text == "" then [] else [Cut(text, 255)]
    {
      assert text != "" ==> buf[0] == buf[..|text|][0] == text[0] && Plain(text[0]);
      if buf[0] == '\0' {
        assert lines + [] == lines;
        return;
      }
      assert text != "";
      var slot := histHead % 16;
      StoreLine(buf, slot, text);
      histHead := histHead + 1;
      if histCount < HIST_MAX {
        histCount := histCount + 1;
      }
      lines := lines + [Cut(text, 255)];
      RingMoves(old(lines), Cut(text, 255));
      forall n | Oldest(lines) <= n < |lines|
        ensures Holds(history, n % 16, lines[n])
      {
        if n < |old(lines)| {
          assert old(Holds(history, n % 16, lines[n]));
        }
      }
    }

    // Backspaces over the whole line.
    method Erase(len: nat, ghost n: nat)
      requires n <= |echo| && |Shown(echo[n..])| == len
      modifies this`echo
      ensures |old(echo)| <= |echo| && echo[..|old(echo)|] == old(echo) && Shown(echo[n..]) == ""
    {
      var i := len;
      while i > 0
        invariant |old(echo)| <= |echo| && echo[..|old(echo)|] == old(echo) && |Shown(echo[n..])| == i
      {
        i := i - 1;
        ShownMore(echo[n..], BS);
        assert (echo + [BS])[n..] == echo[n..] + [BS];
        Putchar(BS);
      }
    }

    // Copies a line of the ring into the buffer and onto the screen.
    method Recall(buf: array<char>, max: nat, slot: nat, ghost line: string, ghost n: nat) returns (j: nat)
      requires 1 <= max <= buf.Length && Holds(history, slot, line) && PlainText(line)
      requires n <= |echo| && Shown(echo[n..]) == ""
      modifies buf, this`echo
      ensures |old(echo)| <= |echo| && echo[..|old(echo)|] == old(echo)
      ensures j == |Cut(line, max - 1)| && buf[..j] == Cut(line, max - 1) == Shown(echo[n..])
    {
      j := 0;
      while history[slot, j] != '\0' && j < max - 1
        invariant j <= |line| && j <= max - 1 && Holds(history, slot, line)
        invariant |old(echo)| <= |echo| && echo[..|old(echo)|] == old(echo)
        invariant buf[..j] == line[..j] == Shown(echo[n..])
        decreases |line| - j
      {
        assert j < |line| && Plain(line[j]);
        buf[j] := history[slot, j];
        ShownMore(echo[n..], buf[j]);
        assert (echo + [buf[j]])[n..] == echo[n..] + [buf[j]];
        Putchar(buf[j]);
        j := j + 1;
      }
    }

    // Up: the next older line, when the ring still has it.
    method PressUp(buf: array<char>, max: nat, len: nat, histPos: nat, ghost e: Edit, ghost n: nat)
      returns (i: nat, pos: nat)
      requires Valid() && 1 <= max <= buf.Length && Sound(e, lines, max)
      requires |e.text| == len && buf[..len] == e.text && e.pos == histPos && n <= |echo| && Shown(echo[n..]) == e.text
      modifies buf, this`echo
      ensures Valid() && |old(echo)| <= |echo| && echo[..|old(echo)|] == old(echo)
      ensures i <= buf.Length && e.(text := buf[..i], pos := pos) == Arrow(e, 0x48, lines, max)
      ensures Shown(echo[n..]) == buf[..i]
    {
      hide Shown;
      i, pos := len, histPos;
      var target := pos as int - 1;
      if target < histHead - histCount {
        return;
      }
      pos := target;
      var slot := pos % 16;
      assert Holds(history, slot, lines[pos]) && PlainText(lines[pos]);
      Erase(i, n);
      i := Recall(buf, max, slot, lines[pos], n);
    }

    // Down: the next newer line, or an empty one behind the newest.
    method PressDown(buf: array<char>, max: nat, len: nat, histPos: nat, ghost e: Edit, ghost n: nat)
      returns (i: nat, pos: nat)
      requires Valid() && 1 <= max <= buf.Length && Sound(e, lines, max)
      requires |e.text| == len && buf[..len] == e.text && e.pos == histPos && n <= |echo| && Shown(echo[n..]) == e.text
      modifies buf, this`echo
      ensures Valid() && |old(echo)| <= |echo| && echo[..|old(echo)|] == old(echo)
      ensures i <= buf.Length && e.(text := buf[..i], pos := pos) == Arrow(e, 0x50, lines, max)
      ensures Shown(echo[n..]) == buf[..i]
    {
      hide Shown;
      i, pos := len, histPos;
      var target := pos + 1;
      if target > histHead {
        return;
      }
      pos := target;
      Erase(i, n);
      if pos == histHead {
        i := 0;
        return;
      }
      var slot := pos % 16;
      assert Holds(history, slot, lines[pos]) && PlainText(lines[pos]);
      i := Recall(buf, max, slot, lines[pos], n);
    }

    // A key that stands for a character: typed, erased, ignored or Enter.
    method PressPlain(buf: array<char>, max: nat, len: nat, sc: Scancode, shift: bool, caps: bool,
                      ghost e: Edit, ghost n: nat)
      returns (i: nat, enter: bool)
      requires Valid() && 1 <= max <= buf.Length && len < max - 1 && IsPlain(e, sc)
      requires |e.text| == len && buf[..len] == e.text && e.shift == shift && e.caps == caps
      requires n <= |echo| && Shown(echo[n..]) == e.text
      modifies buf, this`echo
      ensures Valid() && |old(echo)| <= |echo| && echo[..|old(echo)|] == old(echo) && i <= buf.Length
      ensures enter <==> IsEnter(e, sc)
      ensures enter <==> sc == ENTER
      ensures sc == BACKSPACE ==> buf[..i] == if e.text == "" then "" else e.text[..len - 1]
      ensures sc != ENTER && IsDead(sc) ==> buf[..i] == e.text
      ensures sc != ENTER && sc != BACKSPACE && !IsDead(sc) ==> buf[..i] == e.text + [KeyOf(sc).Char(shift != caps)]
      ensures enter ==> i == len && buf[..i] == e.text && Shown(echo[n..]) == e.text + "\n"
      ensures !enter ==> e.(text := buf[..i]) == Typed(e, KeyChar(e, sc)) && Shown(echo[n..]) == buf[..i]
    {
      hide Shown;
      TableSizes();
      KeysAre(e, sc);
      i, enter := len, false;
      var c := if shift != caps then UP[sc] else LO[sc];
      if c == '\0' {
        return;
      }
      ShownMore(echo[n..], c);
      assert (echo + [c])[n..] == echo[n..] + [c];
      if c == '\n' {
        Putchar('\n');
        enter := true;
        return;
      }
      if c == BS {
        if i > 0 {
          i := i - 1;
          Putchar(BS);
        }
        return;
      }
      buf[i] := c;
      i := i + 1;
      Putchar(c);
    }

    lemma HeadFacts()
      requires Valid()
      ensures histHead == |lines| && PlainLines(lines) && Oldest(lines) <= |lines|
    {
    }

    // One line read from the scancodes; done says whether it was finished before they ran out.
    method KeyboardReadline(buf: array<char>, max: nat, stream: seq<Scancode>)
      returns (used: nat, done: bool)
      requires Valid() && 1 <= max <= buf.Length && Readable(stream)
      modifies buf, history, this`histCount, this`histHead, this`lines, this`echo
      ensures Valid() && |old(echo)| <= |echo| && echo[..|old(echo)|] == old(echo)
      ensures var e := Edited(Fresh(old(lines)), stream, old(lines), max);
              var left := Unread(Fresh(old(lines)), stream, old(lines), max);
              var full := |e.text| >= max - 1;
              && |e.text| <= max - 1
              && (done <==> full || left != [])
              && used == |stream| - |left| + (if !full && left != [] then 1 else 0)
              && Shown(echo[|old(echo)|..]) == e.text + (if !full && left != [] then "\n" else "")
              && buf[..|e.text|] == e.text
              && (done ==> buf[|e.text|] == '\0')
              && lines == old(lines) + if done && e.text != "" then [Cut(e.text, 255)] else []
    {
      hide Shown, Step, KeyChar, Valid, PlainLines, Readable, Edited, Unread, Arrow, Typed;
      HeadFacts();
      ghost var n, lines0, start := |echo|, lines, Fresh(lines);
      var i: nat, shift, caps := 0, false, false;
      var histPos: nat := histHead;
      var extended := false;
      used, done := 0, true;
      ghost var e := start;
      assert echo[n..] == [] && stream[0..] == stream;
      NothingShown();
      while i < max - 1
        invariant Valid() && lines == lines0 && n <= |echo| && echo[..n] == old(echo)
        invariant used <= |stream| && i <= buf.Length && done
        invariant e == Edit(buf[..i], histPos, shift, caps, extended) && Sound(e, lines, max)
        invariant Edited(e, stream[used..], lines, max) == Edited(start, stream, lines, max)
        invariant Unread(e, stream[used..], lines, max) == Unread(start, stream, lines, max)
        invariant Shown(echo[n..]) == e.text
        invariant extended <==> used > 0 && stream[used - 1] == 0xE0
        decreases |stream| - used
      {
        if used == |stream| {
          EditedOf(e, [], lines, max);
          done := false;
          assert lines + [] == lines;
          return;
        }
        var sc := stream[used];
        ghost var next := Step(e, sc, lines, max);
        StepSound(e, sc, lines, max);
        StepCases(e, sc, lines, max);
        EditedOf(e, stream[used..], lines, max);
        ReadableAt(stream, used);
        assert stream[used..][0] == sc && stream[used..][1..] == stream[used + 1..];
        used := used + 1;
        if sc == 0xE0 {
          extended := true;
        } else if extended {
          extended := false;
          if sc == 0x48 {
            i, histPos := PressUp(buf, max, i, histPos, e.(extended := false), n);
          } else if sc == 0x50 {
            i, histPos := PressDown(buf, max, i, histPos, e.(extended := false), n);
          }
        } else if sc == 0x2A || sc == 0x36 {
          shift := true;
        } else if sc == 0xAA || sc == 0xB6 {
          shift := false;
        } else if sc == 0x3A {
          caps := !caps;
        } else if sc < 128 {
          var enter;
          i, enter := PressPlain(buf, max, i, sc, shift, caps, e, n);
          if enter {
            break;
          }
        }
        e := next;
      }
      EditedOf(e, stream[used - (if i < max - 1 then 1 else 0)..], lines, max);
      buf[i] := '\0';
      HistAdd(buf, e.text);
    }
  }
}
