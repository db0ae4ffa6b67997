// The expression calculator: a recursive-descent evaluator over a cursor, and
// the printer it inverts.

module Calc {
  import opened Machine

  // ---------- operators ----------

  datatype Op = Or | Xor | And | Shl | Shr | Add | Sub | Mul | Div | Mod

  // Six levels, loosest first; 6 is a primary.
  function Prec(op: Op): nat {
    match op
    case Or => 0
    case Xor => 1
    case And => 2
    case Shl => 3
    case Shr => 3
    case Add => 4
    case Sub => 4
    case _ => 5
  }

  function Pow2(n: nat): nat {
    if n == 0 then 1 else 2 * Pow2(n - 1)
  }

  // One bit of a bitwise operator.
  function Bit(op: Op, x: nat, y: nat): (r: nat)
    requires x < 2 && y < 2
    ensures r < 2
  {
    match op
    case Or => x + y - x * y
    case Xor => (x + y) % 2
    case _ => x * y
  }

  // The operator on each of the low n bits.
  function Bitwise(op: Op, a: nat, b: nat, n: nat): (r: nat)
    ensures r < Pow2(n)
  {
    if n == 0 then 0 else Bit(op, a % 2, b % 2) + 2 * Bitwise(op, a / 2, b / 2, n - 1)
  }

  lemma Regroup(x: nat, y: nat, z: nat)
    ensures x * y * z == x * (y * z)
  {
  }

  lemma {:induction false} Pow2Sum(m: nat, n: nat)
    ensures Pow2(m + n) == Pow2(m) * Pow2(n)
  {
    if m > 0 {
      Pow2Sum(m - 1, n);
      Regroup(2, Pow2(m - 1), Pow2(n));
    }
  }

  lemma SixtyFour()
    ensures Pow2(64) == TWO64
  {
    assert Pow2(4) == 16;
    Pow2Sum(4, 4);
    Pow2Sum(8, 8);
    Pow2Sum(16, 16);
    Pow2Sum(32, 32);
  }

  // What the operators compute on 64 bits. A shift by 64 or more has no meaning
  // in C; it is 0 here, and the theorems leave it out.
  function Apply(op: Op, a: Word, b: Word): Word {
    match op
    case Shl => if b < 64 then a * Pow2(b) % 0x1_0000_0000_0000_0000 else 0
    case Shr => if b < 64 then Halved(a, b) else 0
    case Add => (a + b) % 0x1_0000_0000_0000_0000
    case Sub => (a + TWO64 - b) % 0x1_0000_0000_0000_0000
    case Mul => a * b % 0x1_0000_0000_0000_0000
    case Div => if b != 0 then Quot(a, b) else 0
    case Mod => if b != 0 then a % b else 0
    case _ => SixtyFour(); Bitwise(op, a, b, 64)
  }

  function Halved(a: Word, n: nat): Word {
    if n == 0 then a else Halved(a / 2, n - 1)
  }

  function Quot(a: Word, b: Word): Word
    requires b != 0
  {
    Scale(b, a / b - a);
    a / b
  }

  function Complement(a: Word): Word { TWO64 - 1 - a }

  function Negated(a: Word): Word { (TWO64 - a) % 0x1_0000_0000_0000_0000 }

  // ---------- the text at the cursor ----------

  datatype Parse = Parse(v: Word, rest: string)

  // The character k places on; the text ends in a zero.
  function CharAt(s: string, k: nat): char {
    if k < |s| then s[k] else '\0'
  }

  function Skip(s: string): (t: string)
    ensures |t| <= |s| && CharAt(t, 0) != ' '
  {
    if CharAt(s, 0) == ' ' then Skip(s[1..]) else s
  }

  predicate IsDigit(c: char, hex: bool) {
    '0' <= c <= '9' || (hex && ('a' <= c <= 'f' || 'A' <= c <= 'F'))
  }

  function DigitValue(c: char): nat {
    if '0' <= c <= '9' then (c as nat) - ('0' as nat)
    else if 'a' <= c <= 'f' then (c as nat) - ('a' as nat) + 10
    else if 'A' <= c <= 'F' then (c as nat) - ('A' as nat) + 10
    else 0
  }

  function Base(hex: bool): nat { if hex then 16 else 10 }

  function Scan(s: string, hex: bool, val: Word): (r: Parse)
    ensures |r.rest| <= |s|
  {
    if IsDigit(CharAt(s, 0), hex)
    then Scan(s[1..], hex, (val * Base(hex) + DigitValue(s[0])) % 0x1_0000_0000_0000_0000)
    else Parse(val, s)
  }

  predicate HexAhead(s: string) {
    CharAt(s, 0) == '0' && (CharAt(s, 1) == 'x' || CharAt(s, 1) == 'X')
  }

  function Number(s: string): (r: Parse)
    ensures |r.rest| <= |s|
  {
    var t := Skip(s);
    if HexAhead(t) then Scan(t[2..], true, 0) else Scan(t, false, 0)
  }

  datatype Found = Nothing | Found(op: Op, width: nat)

  // The operator of level p at the head of the text.
  function OpAt(p: nat, s: string): (f: Found)
    ensures f.Found? ==> 1 <= f.width <= |s| && Prec(f.op) == p
  {
    var c, d := CharAt(s, 0), CharAt(s, 1);
    if p == 0 && c == '|' && d != '|' then Found(Or, 1)
    else if p == 1 && c == '^' then Found(Xor, 1)
    else if p == 2 && c == '&' && d != '&' then Found(And, 1)
    else if p == 3 && c == '<' && d == '<' then Found(Shl, 2)
    else if p == 3 && c == '>' && d == '>' then Found(Shr, 2)
    else if p == 4 && c == '+' then Found(Add, 1)
    else if p == 4 && c == '-' then Found(Sub, 1)
    else if p == 5 && c == '*' then Found(Mul, 1)
    else if p == 5 && c == '/' then Found(Div, 1)
    else if p == 5 && c == '%' then Found(Mod, 1)
    else Nothing
  }

  // What the parsing function of level p makes of a text: its value and what it leaves.
  function Level(p: nat, s: string): (r: Parse)
    requires p <= 6
    ensures |r.rest| <= |s|
    decreases |s|, 6 - p, 1
  {
    if p == 6 then Primary(s)
    else
      var r := Level(p + 1, s);
      Tail(p, r.v, r.rest)
  }

  // The operators of level p that follow a first operand, applied from the left.
  function Tail(p: nat, v: Word, s: string): (r: Parse)
    requires p <= 5
    ensures |r.rest| <= |s|
    decreases |s|, 6 - p, 0
  {
    var t := if p >= 3 then Skip(s) else s;
    var f := OpAt(p, t);
    if f.Nothing? then Parse(v, t)
    else
      var r := Level(p + 1, t[f.width..]);
      Tail(p, Apply(f.op, v, r.v), r.rest)
  }

  function Primary(s: string): (r: Parse)
    ensures |r.rest| <= |s|
    decreases |s|, 0, 0
  {
    var t := Skip(s);
    var c := CharAt(t, 0);
    if c == '(' then
      var r := Level(0, t[1..]);
      if CharAt(r.rest, 0) == ')' then Parse(r.v, r.rest[1..]) else r
    else if c == '~' then
      var r := Primary(t[1..]);
      Parse(Complement(r.v), r.rest)
    else if c == '-' then
      var r := Primary(t[1..]);
      Parse(Negated(r.v), r.rest)
    else
      Number(t)
  }

  // ---------- expressions and how they are written ----------

  datatype Expr =
    | Lit(prefix: string, digits: string)
    | Group(e: Expr)
    | Not(e: Expr)
    | Neg(e: Expr)
    | Bin(op: Op, l: Expr, r: Expr)

  predicate WellFormed(x: Expr) {
    match x
    case Lit(prefix, digits) =>
      && (prefix == "" || prefix == "0x" || prefix == "0X") && |digits| > 0
      && forall i :: 0 <= i < |digits| ==> IsDigit(digits[i], prefix != "")
    case Group(e) => WellFormed(e)
    case Not(e) => WellFormed(e)
    case Neg(e) => WellFormed(e)
    case Bin(_, l, r) => WellFormed(l) && WellFormed(r)
  }

  // The number a digit string stands for, behind a part already read.
  function Positional(digits: string, hex: bool, acc: nat): nat {
    if digits == "" then acc
    else Positional(digits[1..], hex, acc * Base(hex) + DigitValue(digits[0]))
  }

  function Eval(x: Expr): Word {
    match x
    case Lit(prefix, digits) => Positional(digits, prefix != "", 0) % 0x1_0000_0000_0000_0000
    case Group(e) => Eval(e)
    case Not(e) => Complement(Eval(e))
    case Neg(e) => Negated(Eval(e))
    case Bin(op, l, r) => Apply(op, Eval(l), Eval(r))
  }

  // Every shift count met in evaluating is below 64.
  predicate Defined(x: Expr) {
    match x
    case Lit(_, _) => true
    case Group(e) => Defined(e)
    case Not(e) => Defined(e)
    case Neg(e) => Defined(e)
    case Bin(op, l, r) => Defined(l) && Defined(r) && (op.Shl? || op.Shr? ==> Eval(r) < 64)
  }

  function OpText(op: Op): (t: string)
    ensures |t| > 0 && t[0] != ' '
  {
    match op
    case Or => "|"
    case Xor => "^"
    case And => "&"
    case Shl => "<<"
    case Shr => ">>"
    case Add => "+"
    case Sub => "-"
    case Mul => "*"
    case Div => "/"
    case Mod => "%"
  }

  function LevelOf(x: Expr): nat {
    if x.Bin? then Prec(x.op) else 6
  }

  // The tokens of x where an operand of level p is due: parenthesised exactly
  // when x binds less tightly, and associating to the left.
  function Tokens(x: Expr, p: nat): seq<string>
    decreases x, if p > LevelOf(x) then 1 else 0
  {
    if p > LevelOf(x) then ["("] + Tokens(x, 0) + [")"]
    else match x
      case Lit(prefix, digits) => [prefix + digits]
      case Group(e) => ["("] + Tokens(e, 0) + [")"]
      case Not(e) => ["~"] + Tokens(e, 6)
      case Neg(e) => ["-"] + Tokens(e, 6)
      case Bin(op, l, r) => Tokens(l, Prec(op)) + [OpText(op)] + Tokens(r, Prec(op) + 1)
  }

  function Spaces(n: nat): string {
    if n == 0 then "" else " " + Spaces(n - 1)
  }

  // The tokens with gaps[k] spaces before the k-th and the last gap at the end.
  function Layout(ts: seq<string>, gaps: seq<nat>): string
    requires |gaps| == |ts| + 1
  {
    if ts == [] then Spaces(gaps[0]) else Spaces(gaps[0]) + ts[0] + Layout(ts[1..], gaps[1..])
  }

  // ---------- reading numbers ----------

  lemma StepMod(acc: nat, base: nat, d: nat)
    ensures (acc % 0x1_0000_0000_0000_0000 * base + d) % 0x1_0000_0000_0000_0000
         == (acc * base + d) % 0x1_0000_0000_0000_0000
  {
    var q, r := acc / 0x1_0000_0000_0000_0000, acc % 0x1_0000_0000_0000_0000;
    var n := r * base + d;
    var q', r' := n / 0x1_0000_0000_0000_0000, n % 0x1_0000_0000_0000_0000;
    assert acc * base + d == 0x1_0000_0000_0000_0000 * (q * base) + n;
    Quotient(acc * base + d, 0x1_0000_0000_0000_0000, q * base + q', r');
  }

  lemma {:induction false} ScanReads(digits: string, hex: bool, acc: nat, rest: string)
    requires forall i :: 0 <= i < |digits| ==> IsDigit(digits[i], hex)
    requires !IsDigit(CharAt(rest, 0), hex)
    ensures Scan(digits + rest, hex, acc % 0x1_0000_0000_0000_0000)
         == Parse(Positional(digits, hex, acc) % 0x1_0000_0000_0000_0000, rest)
  {
    if digits == "" {
      assert digits + rest == rest;
    } else {
      assert IsDigit(digits[0], hex);
      assert (digits + rest)[1..] == digits[1..] + rest;
      StepMod(acc, Base(hex), DigitValue(digits[0]));
      ScanReads(digits[1..], hex, acc * Base(hex) + DigitValue(digits[0]), rest);
    }
  }

  predicate Delimits(c: char) {
    !IsDigit(c, true) && c != 'x' && c != 'X'
  }

  // calc_num reads a literal back and stops behind it.
  lemma NumberReads(x: Expr, rest: string)
    requires x.Lit? && WellFormed(x) && Delimits(CharAt(rest, 0))
    ensures Number(x.prefix + x.digits + rest) == Parse(Eval(x), rest)
  {
    var s := x.prefix + x.digits + rest;
    assert IsDigit(x.digits[0], x.prefix != "");
    assert Skip(s) == s;
    if x.prefix == "" {
      assert s == x.digits + rest;
      if |x.digits| > 1 {
        assert IsDigit(x.digits[1], false);
      }
      ScanReads(x.digits, false, 0, rest);
    } else {
      assert s[2..] == x.digits + rest;
      ScanReads(x.digits, true, 0, rest);
    }
  }

  // ---------- spaces ----------

  lemma {:induction false} SkipSpaces(n: nat, t: string)
    ensures Skip(Spaces(n) + t) == Skip(t)
  {
    if n == 0 {
      assert Spaces(n) + t == t;
    } else {
      assert (Spaces(n) + t)[1..] == Spaces(n - 1) + t;
      SkipSpaces(n - 1, t);
    }
  }

  lemma {:induction false} LevelSkips(p: nat, s: string)
    requires p <= 6
    ensures Level(p, s) == Level(p, Skip(s))
    decreases 6 - p
  {
    if p < 6 {
      LevelSkips(p + 1, s);
    } else {
      assert Skip(Skip(s)) == Skip(s);
    }
  }

  // The text of the tokens with the spaces before the first one gone.
  function Text(ts: seq<string>, gaps: seq<nat>): string
    requires |gaps| == |ts| + 1
  {
    Skip(Layout(ts, gaps))
  }

  lemma TextOf(ts: seq<string>, gaps: seq<nat>)
    requires |gaps| == |ts| + 1 && (ts != [] ==> CharAt(ts[0], 0) != ' ' && |ts[0]| > 0)
    ensures Text(ts, gaps) == if ts == [] then "" else ts[0] + Layout(ts[1..], gaps[1..])
  {
    if ts == [] {
      SkipSpaces(gaps[0], "");
      assert Spaces(gaps[0]) + "" == Spaces(gaps[0]);
    } else {
      var t := ts[0] + Layout(ts[1..], gaps[1..]);
      SkipSpaces(gaps[0], t);
      assert Layout(ts, gaps) == Spaces(gaps[0]) + t;
    }
  }

  // What follows starts with a space or is Text already.
  lemma LayoutStarts(ts: seq<string>, gaps: seq<nat>)
    requires |gaps| == |ts| + 1
    ensures CharAt(Layout(ts, gaps), 0) == ' ' || Layout(ts, gaps) == Text(ts, gaps)
  {
  }

  // ---------- what can follow an operand ----------

  predicate StartsOperand(t: string) {
    |t| > 0 && (t[0] == '(' || t[0] == '~' || t[0] == '-' || '0' <= t[0] <= '9')
  }

  // A closing parenthesis, or an operator looser than level p.
  ghost predicate Closes(t: string, p: nat) {
    t == ")" || exists op :: t == OpText(op) && Prec(op) < p
  }

  ghost predicate Ends(us: seq<string>, p: nat) {
    us == [] || Closes(us[0], p)
  }

  lemma {:induction false} FirstToken(x: Expr, p: nat)
    requires WellFormed(x)
    ensures |Tokens(x, p)| > 0 && StartsOperand(Tokens(x, p)[0])
    decreases x
  {
    if p <= LevelOf(x) {
      match x
      case Lit(prefix, digits) =>
        assert IsDigit(digits[0], prefix != "");
        assert Tokens(x, p)[0] == prefix + digits;
      case Bin(op, l, r) => FirstToken(l, Prec(op));
      case _ =>
    }
  }

  lemma EndsTighter(us: seq<string>, p: nat)
    requires Ends(us, p)
    ensures Ends(us, p + 1)
  {
  }

  // Where level p stops.
  lemma EndsAt(us: seq<string>, gaps: seq<nat>, p: nat)
    requires |gaps| == |us| + 1 && Ends(us, p)
    ensures p <= 5 ==> OpAt(p, Text(us, gaps)) == Nothing
    ensures Delimits(CharAt(Layout(us, gaps), 0))
  {
    if us != [] {
      assert |us[0]| > 0 && us[0][0] != ' ' && Delimits(us[0][0]);
    }
    TextOf(us, gaps);
    LayoutStarts(us, gaps);
  }

  // An operator token in front of an operand is found, and only it is taken.
  lemma OpNext(op: Op, us: seq<string>, gaps: seq<nat>)
    requires |gaps| == |us| + 1 && |us| > 1 && us[0] == OpText(op) && StartsOperand(us[1])
    ensures OpAt(Prec(op), Text(us, gaps)) == Found(op, |OpText(op)|)
    ensures Text(us, gaps)[|OpText(op)|..] == Layout(us[1..], gaps[1..])
  {
    TextOf(us, gaps);
    TextOf(us[1..], gaps[1..]);
    LayoutStarts(us[1..], gaps[1..]);
    var rest := Layout(us[1..], gaps[1..]);
    assert Text(us, gaps) == OpText(op) + rest;
  }

  lemma TailSkips(p: nat, v: Word, s: string)
    requires 3 <= p <= 5
    ensures Tail(p, v, s) == Tail(p, v, Skip(s))
  {
  }

  // ---------- the parser inverts the printer ----------

  ghost predicate ReadAs(r: Parse, p: nat, v: Word, rest: string) {
    r.v == v && Skip(r.rest) == rest && (p <= 5 ==> r.rest == rest)
  }

  ghost function Rank(x: Expr, p: nat): nat
    requires p <= 6
  {
    (if p > LevelOf(x) then 27 else 13) - 2 * p
  }

  lemma Parenthesised(ts: seq<string>, us: seq<string>, gaps: seq<nat>, v: Word)
    requires |gaps| == |ts| + |us| + 3
    requires ReadAs(Level(0, Text(ts + [")"] + us, gaps[1..])), 0, v, Text([")"] + us, gaps[|ts| + 1..]))
    ensures ReadAs(Level(6, Text(["("] + ts + [")"] + us, gaps)), 6, v, Text(us, gaps[|ts| + 2..]))
  {
    hide Level, Tail, Layout, Skip;
    var inner, close := ts + [")"] + us, [")"] + us;
    var all := ["("] + ts + [")"] + us;
    assert all[1..] == inner && close[1..] == us;
    assert gaps[|ts| + 1..][1..] == gaps[|ts| + 2..];
    TextOf(all, gaps);
    TextOf(close, gaps[|ts| + 1..]);
    LevelSkips(0, Layout(inner, gaps[1..]));
    PrimaryParen(Layout(inner, gaps[1..]), Layout(us, gaps[|ts| + 2..]), v);
  }

  lemma PrimaryParen(inner: string, rest: string, v: Word)
    requires Level(0, inner) == Parse(v, ")" + rest)
    ensures Level(6, "(" + inner) == Parse(v, rest)
  {
    hide Tail;
    assert ("(" + inner)[1..] == inner && (")" + rest)[1..] == rest;
  }

  lemma PrimarySign(sign: char, inner: string)
    requires sign == '~' || sign == '-'
    ensures var r := Level(6, inner);
            Level(6, [sign] + inner) == Parse(if sign == '~' then Complement(r.v) else Negated(r.v), r.rest)
  {
    assert ([sign] + inner)[1..] == inner;
  }

  // A unary operator applies to the primary behind it.
  lemma Signed(sign: char, ts: seq<string>, us: seq<string>, gaps: seq<nat>, v: Word)
    requires sign == '~' || sign == '-'
    requires |gaps| == |ts| + |us| + 2
    requires ReadAs(Level(6, Text(ts + us, gaps[1..])), 6, v, Text(us, gaps[|ts| + 1..]))
    ensures ReadAs(Level(6, Text([[sign]] + ts + us, gaps)), 6,
                   if sign == '~' then Complement(v) else Negated(v), Text(us, gaps[|ts| + 1..]))
  {
    hide Level, Tail, Layout, Skip;
    var inner, all := ts + us, [[sign]] + ts + us;
    assert all[1..] == inner;
    TextOf(all, gaps);
    LevelSkips(6, Layout(inner, gaps[1..]));
    PrimarySign(sign, Layout(inner, gaps[1..]));
  }

  lemma LiteralReads(x: Expr, us: seq<string>, gaps: seq<nat>)
    requires x.Lit? && WellFormed(x) && |gaps| == |us| + 2 && Ends(us, 6)
    ensures ReadAs(Level(6, Text([x.prefix + x.digits] + us, gaps)), 6, Eval(x), Text(us, gaps[1..]))
  {
    hide Ends, Layout, Positional;
    var lit := x.prefix + x.digits;
    assert ([lit] + us)[1..] == us;
    assert IsDigit(x.digits[0], x.prefix != "");
    TextOf([lit] + us, gaps);
    EndsAt(us, gaps[1..], 6);
    NumberReads(x, Layout(us, gaps[1..]));
  }

  // One step of the loop of level p, with the operator and its right operand read.
  lemma TailStep(op: Op, v: Word, us: seq<string>, gaps: seq<nat>, w: Word, rest: string)
    requires |gaps| == |us| + 1 && |us| > 1 && us[0] == OpText(op) && StartsOperand(us[1])
    requires ReadAs(Level(Prec(op) + 1, Text(us[1..], gaps[1..])), Prec(op) + 1, w, rest)
    ensures Tail(Prec(op), v, Text(us, gaps)) == Tail(Prec(op), Apply(op, v, w), rest)
  {
    hide Level, Layout, Apply, OpAt, Skip;
    var p := Prec(op);
    OpNext(op, us, gaps);
    LevelSkips(p + 1, Layout(us[1..], gaps[1..]));
    var r := Level(p + 1, Layout(us[1..], gaps[1..]));
    assert Skip(Text(us, gaps)) == Text(us, gaps) by {
      SkipTwice(Layout(us, gaps));
    }
    if p == 5 {
      TailSkips(p, Apply(op, v, w), r.rest);
    }
  }

  lemma SkipTwice(s: string)
    ensures Skip(Skip(s)) == Skip(s)
  {
  }

  // Level p reads x back, whatever closing text follows.
  lemma {:induction false} Reads(x: Expr, p: nat, us: seq<string>, gaps: seq<nat>)
    requires p <= 6 && WellFormed(x) && |gaps| == |Tokens(x, p)| + |us| + 1 && Ends(us, p)
    ensures ReadAs(Level(p, Text(Tokens(x, p) + us, gaps)), p, Eval(x), Text(us, gaps[|Tokens(x, p)|..]))
    decreases x, Rank(x, p)
  {
    hide Level, Tail, Text, OpAt, Apply, Ends, Complement, Negated;
    if p <= 5 {
      EndsTighter(us, p);
      Chains(x, p, us, gaps);
      TailEnds(x, p, us, gaps);
    } else if LevelOf(x) < 6 {
      assert Tokens(x, 6) + us == ["("] + Tokens(x, 0) + [")"] + us;
      InParens(x, us, gaps);
    } else {
      match x
      case Lit(_, _) => LiteralReads(x, us, gaps);
      case Group(e) => InParens(e, us, gaps);
      case Not(e) =>
        Reads(e, 6, us, gaps[1..]);
        assert ["~"] + Tokens(e, 6) + us == Tokens(x, 6) + us && gaps[1..][|Tokens(e, 6)|..] == gaps[|Tokens(x, 6)|..];
        Signed('~', Tokens(e, 6), us, gaps, Eval(e));
      case Neg(e) =>
        Reads(e, 6, us, gaps[1..]);
        assert ["-"] + Tokens(e, 6) + us == Tokens(x, 6) + us && gaps[1..][|Tokens(e, 6)|..] == gaps[|Tokens(x, 6)|..];
        Signed('-', Tokens(e, 6), us, gaps, Eval(e));
    }
  }

  lemma {:induction false} InParens(x: Expr, us: seq<string>, gaps: seq<nat>)
    requires WellFormed(x) && |gaps| == |Tokens(x, 0)| + |us| + 3
    ensures ReadAs(Level(6, Text(["("] + Tokens(x, 0) + [")"] + us, gaps)), 6, Eval(x),
                   Text(us, gaps[|Tokens(x, 0)| + 2..]))
    decreases x, 14
  {
    hide Level, Text, Tokens;
    var ts := Tokens(x, 0);
    Reads(x, 0, [")"] + us, gaps[1..]);
    assert gaps[1..][|ts|..] == gaps[|ts| + 1..];
    assert ts + [")"] + us == ts + ([")"] + us);
    Parenthesised(ts, us, gaps, Eval(x));
  }

  lemma TailEnds(x: Expr, p: nat, us: seq<string>, gaps: seq<nat>)
    requires p <= 5 && |gaps| == |Tokens(x, p)| + |us| + 1 && Ends(us, p)
    ensures var t := Text(us, gaps[|Tokens(x, p)|..]);
            Skip(t) == t && Tail(p, Eval(x), t) == Parse(Eval(x), t)
  {
    hide Level, OpAt, Layout;
    var gs := gaps[|Tokens(x, p)|..];
    EndsAt(us, gs, p);
    SkipTwice(Layout(us, gs));
  }

  // Level p reads x and goes on with the operators of its level that follow.
  lemma {:induction false} Chains(x: Expr, p: nat, us: seq<string>, gaps: seq<nat>)
    requires p <= 5 && WellFormed(x) && |gaps| == |Tokens(x, p)| + |us| + 1 && Ends(us, p + 1)
    ensures Level(p, Text(Tokens(x, p) + us, gaps)) == Tail(p, Eval(x), Text(us, gaps[|Tokens(x, p)|..]))
    decreases x, Rank(x, p) - 1
  {
    if x.Bin? && Prec(x.op) == p {
      ChainStep(x, us, gaps);
    } else {
      hide Tail, Text, OpAt, Apply, Ends, Eval;
      assert Tokens(x, p) == Tokens(x, p + 1);
      Reads(x, p + 1, us, gaps);
      if p == 5 {
        TailSkips(p, Eval(x), Level(p + 1, Text(Tokens(x, p) + us, gaps)).rest);
      }
    }
  }

  lemma {:induction false} ChainStep(x: Expr, us: seq<string>, gaps: seq<nat>)
    requires x.Bin? && WellFormed(x) && |gaps| == |Tokens(x, Prec(x.op))| + |us| + 1 && Ends(us, Prec(x.op) + 1)
    ensures Level(Prec(x.op), Text(Tokens(x, Prec(x.op)) + us, gaps))
         == Tail(Prec(x.op), Eval(x), Text(us, gaps[|Tokens(x, Prec(x.op))|..]))
    decreases x, 0
  {
    hide Level, Tail, Text, OpAt, Apply, Tokens, Ends, Layout, Skip, OpText, Prec, StartsOperand;
    BinTokens(x);
    var p := Prec(x.op);
    var ls, rs := Tokens(x.l, p), Tokens(x.r, p + 1);
    var rest := rs + us;
    var us1 := [OpText(x.op)] + rest;
    var gs1 := gaps[|ls|..];
    assert ls + [OpText(x.op)] + rs + us == ls + us1;
    assert us1[1..] == rest;
    assert gs1[1..] == gaps[|ls| + 1..] && gaps[|ls| + 1..][|rs|..] == gaps[|ls| + 1 + |rs|..];
    OpensChain(us1, x.op);
    Chains(x.l, p, us1, gaps);
    Reads(x.r, p + 1, us, gs1[1..]);
    FirstToken(x.r, p + 1);
    TailStep(x.op, Eval(x.l), us1, gs1, Eval(x.r), Text(us, gaps[|ls| + 1 + |rs|..]));
  }

  lemma BinTokens(x: Expr)
    requires x.Bin?
    ensures Prec(x.op) <= 5 && LevelOf(x) == Prec(x.op)
    ensures Tokens(x, Prec(x.op)) == Tokens(x.l, Prec(x.op)) + [OpText(x.op)] + Tokens(x.r, Prec(x.op) + 1)
  {
  }

  lemma OpensChain(us: seq<string>, op: Op)
    requires us != [] && us[0] == OpText(op)
    ensures Ends(us, Prec(op) + 1)
  {
  }

  // Whatever the spacing, calc_expr reads the whole text and returns the value of the tree.
  lemma ParserInvertsPrinter(x: Expr, gaps: seq<nat>)
    requires WellFormed(x) && Defined(x) && |gaps| == |Tokens(x, 0)| + 1
    ensures Level(0, Layout(Tokens(x, 0), gaps)) == Parse(Eval(x), "")
  {
    hide Level, Tail, Layout, Tokens, Eval;
    var ts := Tokens(x, 0);
    assert ts + [] == ts;
    Reads(x, 0, [], gaps);
    TextOf([], gaps[|ts|..]);
    LevelSkips(0, Layout(ts, gaps));
  }

  // ---------- what the values mean ----------

  // Sums, differences, products and signs of numbers.
  predicate Polynomial(x: Expr) {
    match x
    case Lit(_, _) => true
    case Group(e) => Polynomial(e)
    case Neg(e) => Polynomial(e)
    case Not(_) => false
    case Bin(op, l, r) => (op.Add? || op.Sub? || op.Mul?) && Polynomial(l) && Polynomial(r)
  }

  // Their value over the integers.
  function Exact(x: Expr): int
    requires Polynomial(x)
  {
    match x
    case Lit(prefix, digits) => Positional(digits, prefix != "", 0)
    case Group(e) => Exact(e)
    case Neg(e) => -Exact(e)
    case Bin(op, l, r) =>
      if op.Add? then Exact(l) + Exact(r) else if op.Sub? then Exact(l) - Exact(r) else Exact(l) * Exact(r)
  }

  lemma Residue(n: int, q: int, r: nat)
    requires r < TWO64 && n == 0x1_0000_0000_0000_0000 * q + r
    ensures n % 0x1_0000_0000_0000_0000 == r
  {
    var d := n / 0x1_0000_0000_0000_0000 - q;
    Scale(0x1_0000_0000_0000_0000, d);
    assert 0x1_0000_0000_0000_0000 * d == r - n % 0x1_0000_0000_0000_0000;
  }

  lemma SumMod(a: int, b: int)
    ensures (a % 0x1_0000_0000_0000_0000 + b % 0x1_0000_0000_0000_0000) % 0x1_0000_0000_0000_0000
         == (a + b) % 0x1_0000_0000_0000_0000
    ensures (a % 0x1_0000_0000_0000_0000 + TWO64 - b % 0x1_0000_0000_0000_0000) % 0x1_0000_0000_0000_0000
         == (a - b) % 0x1_0000_0000_0000_0000
  {
    var m := 0x1_0000_0000_0000_0000;
    var n := a % 0x1_0000_0000_0000_0000 + b % 0x1_0000_0000_0000_0000;
    Residue(a + b, a / m + b / m + n / m, n % 0x1_0000_0000_0000_0000);
    var k := a % 0x1_0000_0000_0000_0000 + TWO64 - b % 0x1_0000_0000_0000_0000;
    Residue(a - b, a / m - b / m + k / m - 1, k % 0x1_0000_0000_0000_0000);
  }

  lemma ProductMod(a: int, b: int)
    ensures (a % 0x1_0000_0000_0000_0000) * (b % 0x1_0000_0000_0000_0000) % 0x1_0000_0000_0000_0000
         == a * b % 0x1_0000_0000_0000_0000
  {
    var qa, ra := a / 0x1_0000_0000_0000_0000, a % 0x1_0000_0000_0000_0000;
    var qb, rb := b / 0x1_0000_0000_0000_0000, b % 0x1_0000_0000_0000_0000;
    var q := qa * b + ra * qb;
    assert a * b == 0x1_0000_0000_0000_0000 * q + ra * rb by {
      assert a * b == 0x1_0000_0000_0000_0000 * qa * b + ra * b;
      assert ra * b == ra * (0x1_0000_0000_0000_0000 * qb) + ra * rb;
    }
    Residue(a * b, q + ra * rb / 0x1_0000_0000_0000_0000, ra * rb % 0x1_0000_0000_0000_0000);
  }

  // The calculator works modulo 2^64: no intermediate wrap shows in the result.
  lemma {:induction false} EvalIsExactMod(x: Expr)
    requires Polynomial(x)
    ensures Eval(x) == Exact(x) % 0x1_0000_0000_0000_0000
  {
    match x
    case Lit(_, _) =>
    case Group(e) => EvalIsExactMod(e);
    case Neg(e) =>
      EvalIsExactMod(e);
      SumMod(0, Exact(e));
    case Bin(op, l, r) =>
      EvalIsExactMod(l);
      EvalIsExactMod(r);
      SumMod(Exact(l), Exact(r));
      ProductMod(Exact(l), Exact(r));
  }

  // The usual decimal digits of a number, most significant first.
  function Decimal(n: nat): string {
    if n < 10 then [DigitChar(n)] else Decimal(n / 10) + [DigitChar(n % 10)]
  }

  function DigitChar(d: nat): (c: char)
    requires d < 10
    ensures IsDigit(c, false) && DigitValue(c) == d
  {
    "0123456789"[d]
  }

  lemma {:induction false} PositionalAppends(digits: string, hex: bool, c: char, acc: nat)
    ensures Positional(digits + [c], hex, acc) == Positional(digits, hex, acc) * Base(hex) + DigitValue(c)
  {
    if digits == "" {
      assert Positional([c][1..], hex, acc * Base(hex) + DigitValue(c)) == acc * Base(hex) + DigitValue(c);
    } else {
      assert (digits + [c])[1..] == digits[1..] + [c];
      PositionalAppends(digits[1..], hex, c, acc * Base(hex) + DigitValue(digits[0]));
    }
  }

  // Every number below 2^64 is read back from its decimal digits.
  lemma {:induction false} DecimalReads(n: nat)
    ensures WellFormed(Lit("", Decimal(n))) && Positional(Decimal(n), false, 0) == n
    ensures n < TWO64 ==> Eval(Lit("", Decimal(n))) == n
  {
    if n < 10 {
      assert Decimal(n)[1..] == "";
    } else {
      DecimalReads(n / 10);
      PositionalAppends(Decimal(n / 10), false, DigitChar(n % 10), 0);
    }
  }

  // The same in base 16, with digits above nine in either case.
  function Hexadecimal(n: nat, upper: bool): string {
    if n < 16 then [HexChar(n, upper)] else Hexadecimal(n / 16, upper) + [HexChar(n % 16, upper)]
  }

  function HexChar(d: nat, upper: bool): (c: char)
    requires d < 16
    ensures IsDigit(c, true) && DigitValue(c) == d
  {
    if upper then "0123456789ABCDEF"[d] else "0123456789abcdef"[d]
  }

  // And from its hexadecimal digits, behind either prefix.
  lemma {:induction false} HexadecimalReads(n: nat, upper: bool, prefix: string)
    requires prefix == "0x" || prefix == "0X"
    ensures WellFormed(Lit(prefix, Hexadecimal(n, upper))) && Positional(Hexadecimal(n, upper), true, 0) == n
    ensures n < TWO64 ==> Eval(Lit(prefix, Hexadecimal(n, upper))) == n
  {
    hide HexChar;
    if n < 16 {
      assert Hexadecimal(n, upper)[1..] == "";
    } else {
      HexadecimalReads(n / 16, upper, prefix);
      PositionalAppends(Hexadecimal(n / 16, upper), true, HexChar(n % 16, upper), 0);
    }
  }

  function BitOf(a: nat, k: nat): (r: nat)
    ensures r < 2
  {
    if k == 0 then a % 2 else BitOf(a / 2, k - 1)
  }

  // Each bit of the result is the operator on the bits of the operands.
  lemma {:induction false} BitwiseBits(op: Op, a: nat, b: nat, n: nat, k: nat)
    requires k < n
    ensures BitOf(Bitwise(op, a, b, n), k) == Bit(op, BitOf(a, k), BitOf(b, k))
    decreases n
  {
    hide Bit, Pow2;
    if k > 0 {
      BitwiseBits(op, a / 2, b / 2, n - 1, k - 1);
    }
  }

  // ---------- what the operators mean ----------

  // The two numbers agree on 64 bits.
  predicate Congruent(n: int, v: Word) { (n - v) % 0x1_0000_0000_0000_0000 == 0 }

  predicate BitSet(v: Word, k: nat) { BitOf(v, k) == 1 }

  // v is a op b, said by what it satisfies. Division and remainder by zero are zero, and
  // nothing is said of a shift by 64 or more.
  ghost predicate Means(op: Op, a: Word, b: Word, v: Word) {
    match op
    case Or => forall k :: 0 <= k < 64 ==> (BitSet(v, k) <==> BitSet(a, k) || BitSet(b, k))
    case Xor => forall k :: 0 <= k < 64 ==> (BitSet(v, k) <==> BitSet(a, k) != BitSet(b, k))
    case And => forall k :: 0 <= k < 64 ==> (BitSet(v, k) <==> BitSet(a, k) && BitSet(b, k))
    case Shl => b < 64 ==> Congruent(a * Pow2(b), v)
    case Shr => b < 64 ==> v * Pow2(b) <= a < (v + 1) * Pow2(b)
    case Add => Congruent(a + b, v)
    case Sub => Congruent(a - b, v)
    case Mul => Congruent(a * b, v)
    case Div => if b == 0 then v == 0 else b * v <= a < b * (v + 1)
    case Mod => if b == 0 then v == 0 else v < b && exists q: nat :: a == b * q + v
  }

  predicate Inverts(a: Word, v: Word) {
    forall k :: 0 <= k < 64 ==> (BitSet(v, k) <==> !BitSet(a, k))
  }

  lemma CongruentMod(n: int)
    ensures Congruent(n, n % 0x1_0000_0000_0000_0000)
  {
  }

  lemma CongruentWrapped(n: int)
    ensures Congruent(n, (n + TWO64) % 0x1_0000_0000_0000_0000)
  {
  }

  lemma CongruentOnce(n: int, v: Word, w: Word)
    requires Congruent(n, v) && Congruent(n, w)
    ensures v == w
  {
  }

  lemma Doubled(h: nat, p: nat)
    ensures h * (2 * p) == 2 * (h * p)
  {
  }

  lemma {:induction false} HalvedIs(a: Word, n: nat)
    ensures Halved(a, n) * Pow2(n) <= a < (Halved(a, n) + 1) * Pow2(n)
  {
    if n > 0 {
      HalvedIs(a / 2, n - 1);
      Doubled(Halved(a, n), Pow2(n - 1));
      Doubled(Halved(a, n) + 1, Pow2(n - 1));
    }
  }

  lemma {:induction false} ComplementBits(a: nat, n: nat, k: nat)
    requires a < Pow2(n) && k < n
    ensures BitOf(Pow2(n) - 1 - a, k) == 1 - BitOf(a, k)
    decreases n
  {
    var v := Pow2(n) - 1 - a;
    assert Pow2(n) == 2 * Pow2(n - 1);
    assert v / 2 == Pow2(n - 1) - 1 - a / 2;
    if k > 0 {
      ComplementBits(a / 2, n - 1, k - 1);
    }
  }

  lemma ComplementInverts(a: Word)
    ensures Inverts(a, Complement(a))
  {
    SixtyFour();
    forall k | 0 <= k < 64
      ensures BitSet(Complement(a), k) <==> !BitSet(a, k)
    {
      ComplementBits(a, 64, k);
    }
  }

  // Words are determined by their bits.
  lemma {:induction false} BitsDetermine(v: nat, w: nat, n: nat)
    requires v < Pow2(n) && w < Pow2(n)
    requires forall k :: 0 <= k < n ==> BitOf(v, k) == BitOf(w, k)
    ensures v == w
  {
    if n > 0 {
      assert BitOf(v, 0) == BitOf(w, 0);
      forall k | 0 <= k < n - 1
        ensures BitOf(v / 2, k) == BitOf(w / 2, k)
      {
        assert BitOf(v, k + 1) == BitOf(w, k + 1);
      }
      BitsDetermine(v / 2, w / 2, n - 1);
    }
  }

  lemma SameBits(v: Word, w: Word)
    requires forall k :: 0 <= k < 64 ==> (BitSet(v, k) <==> BitSet(w, k))
    ensures v == w
  {
    hide Pow2;
    SixtyFour();
    forall k | 0 <= k < 64
      ensures BitOf(v, k) == BitOf(w, k)
    {
      assert BitSet(v, k) <==> BitSet(w, k);
    }
    BitsDetermine(v, w, 64);
  }

  lemma BitwiseMeans(op: Op, a: Word, b: Word)
    requires op.Or? || op.Xor? || op.And?
    ensures Means(op, a, b, Apply(op, a, b))
  {
    hide Pow2, BitOf, Bitwise;
    SixtyFour();
    forall k | 0 <= k < 64
      ensures BitOf(Apply(op, a, b), k) == Bit(op, BitOf(a, k), BitOf(b, k))
    {
      BitwiseBits(op, a, b, 64, k);
    }
  }

  lemma QuotientMeans(op: Op, a: Word, b: Word)
    requires op.Div? || op.Mod?
    ensures Means(op, a, b, Apply(op, a, b))
  {
    hide Quot;
    if b != 0 {
      Euclid(a, b);
    }
  }

  lemma Euclid(a: Word, b: Word)
    requires b != 0
    ensures a == b * Quot(a, b) + a % b && b * Quot(a, b) <= a < b * (Quot(a, b) + 1)
  {
  }

  lemma ShiftMeans(op: Op, a: Word, b: Word)
    requires op.Shl? || op.Shr?
    ensures Means(op, a, b, Apply(op, a, b))
  {
    hide Pow2, Halved, Congruent;
    if b < 64 {
      CongruentMod(a * Pow2(b));
      HalvedIs(a, b);
    }
  }

  lemma SumMeans(op: Op, a: Word, b: Word)
    requires op.Add? || op.Sub? || op.Mul?
    ensures Means(op, a, b, Apply(op, a, b))
  {
    hide Congruent;
    match op
    case Add => CongruentMod(a + b);
    case Sub => CongruentWrapped(a - b);
    case Mul => CongruentMod(a * b);
  }

  // The operators compute what they mean, and nothing else means it.
  lemma ApplyMeans(op: Op, a: Word, b: Word)
    ensures Means(op, a, b, Apply(op, a, b))
  {
    hide Means, Apply;
    match op
    case Div => QuotientMeans(op, a, b);
    case Mod => QuotientMeans(op, a, b);
    case Shl => ShiftMeans(op, a, b);
    case Shr => ShiftMeans(op, a, b);
    case Or => BitwiseMeans(op, a, b);
    case Xor => BitwiseMeans(op, a, b);
    case And => BitwiseMeans(op, a, b);
    case _ => SumMeans(op, a, b);
  }

  lemma OneQuotient(a: int, b: int, q: int, p: int)
    requires b > 0 && b * q <= a < b * (q + 1) && b * p <= a < b * (p + 1)
    ensures q == p
  {
    Scale(b, q - p);
    Scale(b, p - q);
  }

  lemma MeansOnce(op: Op, a: Word, b: Word, v: Word, w: Word)
    requires Means(op, a, b, v) && Means(op, a, b, w) && (op.Shl? || op.Shr? ==> b < 64)
    ensures v == w
  {
    hide Pow2, BitOf, Congruent, BitSet;
    match op
    case Shl => CongruentOnce(a * Pow2(b), v, w);
    case Shr => OneQuotient(a, Pow2(b), v, w);
    case Add => CongruentOnce(a + b, v, w);
    case Sub => CongruentOnce(a - b, v, w);
    case Mul => CongruentOnce(a * b, v, w);
    case Div => if b != 0 { OneQuotient(a, b, v, w); }
    case Mod =>
      if b != 0 {
        var q: nat :| a == b * q + v;
        var p: nat :| a == b * p + w;
        OneQuotient(a, b, q, p);
      }
    case _ => SameBits(v, w);
  }

  // The value of an expression, by what its operators mean.
  ghost predicate Denotes(x: Expr, v: Word) {
    match x
    case Lit(prefix, digits) => Congruent(Positional(digits, prefix != "", 0), v)
    case Group(e) => Denotes(e, v)
    case Not(e) => exists w: Word :: Denotes(e, w) && Inverts(w, v)
    case Neg(e) => exists w: Word :: Denotes(e, w) && Congruent(w + v, 0)
    case Bin(op, l, r) => exists a: Word, b: Word :: Denotes(l, a) && Denotes(r, b) && Means(op, a, b, v)
  }

  lemma {:induction false} EvalDenotes(x: Expr)
    ensures Denotes(x, Eval(x))
  {
    hide Means, Inverts, Apply, Complement, Congruent;
    match x
    case Lit(prefix, digits) => CongruentMod(Positional(digits, prefix != "", 0));
    case Group(e) => EvalDenotes(e);
    case Not(e) =>
      EvalDenotes(e);
      ComplementInverts(Eval(e));
    case Neg(e) =>
      EvalDenotes(e);
      NegatedIs(Eval(e));
    case Bin(op, l, r) =>
      EvalDenotes(l);
      EvalDenotes(r);
      ApplyMeans(op, Eval(l), Eval(r));
  }

  lemma NegatedIs(a: Word)
    ensures Congruent(a + Negated(a), 0)
  {
  }

  lemma NegatedOnce(a: Word, v: Word, w: Word)
    requires Congruent(a + v, 0) && Congruent(a + w, 0)
    ensures v == w
  {
  }

  lemma InvertsOnce(a: Word, v: Word, w: Word)
    requires Inverts(a, v) && Inverts(a, w)
    ensures v == w
  {
    hide BitSet;
    SameBits(v, w);
  }

  // As long as no shift is by 64 or more, nothing but the value read is denoted.
  lemma {:induction false} DenotesOnce(x: Expr, v: Word)
    requires Defined(x) && Denotes(x, v)
    ensures v == Eval(x)
  {
    hide Means, Inverts, Apply, Complement, Congruent, Negated;
    match x
    case Lit(prefix, digits) =>
      CongruentMod(Positional(digits, prefix != "", 0));
      CongruentOnce(Positional(digits, prefix != "", 0), v, Eval(x));
    case Group(e) => DenotesOnce(e, v);
    case Not(e) =>
      var w: Word :| Denotes(e, w) && Inverts(w, v);
      DenotesOnce(e, w);
      ComplementInverts(w);
      InvertsOnce(w, v, Eval(x));
    case Neg(e) =>
      var w: Word :| Denotes(e, w) && Congruent(w + v, 0);
      DenotesOnce(e, w);
      NegatedIs(w);
      NegatedOnce(w, v, Eval(x));
    case Bin(op, l, r) =>
      var a: Word, b: Word :| Denotes(l, a) && Denotes(r, b) && Means(op, a, b, v);
      DenotesOnce(l, a);
      DenotesOnce(r, b);
      ApplyMeans(op, a, b);
      MeansOnce(op, a, b, v, Eval(x));
  }

  // ---------- lines as they are typed ----------

  // The whole line is read, and its value is the one the expression denotes.
  ghost predicate Stands(line: string, x: Expr) {
    forall v: Word :: Level(0, line) == Parse(v, "") <==> Denotes(x, v)
  }

  lemma StandsIf(x: Expr, gaps: seq<nat>)
    requires WellFormed(x) && Defined(x) && |gaps| == |Tokens(x, 0)| + 1
    ensures Stands(Layout(Tokens(x, 0), gaps), x)
  {
    hide Level, Layout, Tokens, Denotes, Eval, WellFormed, Defined;
    ParserInvertsPrinter(x, gaps);
    EvalDenotes(x);
    forall v | Denotes(x, v)
      ensures v == Eval(x)
    {
      DenotesOnce(x, v);
    }
  }

  function Num(n: Word): Expr { Lit("", Decimal(n)) }

  lemma NumIs(n: Word, p: nat)
    requires p <= 6
    ensures WellFormed(Num(n)) && Defined(Num(n)) && Eval(Num(n)) == n && Tokens(Num(n), p) == [Decimal(n)]
  {
    DecimalReads(n);
    assert "" + Decimal(n) == Decimal(n);
  }

  // Tokens written without spaces.
  lemma {:induction false} Close(ts: seq<string>)
    ensures Layout(ts, seq(|ts| + 1, _ => 0)) == Joined(ts)
  {
    var gaps := seq(|ts| + 1, _ => 0);
    assert Spaces(0) == "";
    if ts != [] {
      assert gaps[1..] == seq(|ts[1..]| + 1, _ => 0);
      Close(ts[1..]);
      assert "" + ts[0] + Joined(ts[1..]) == ts[0] + Joined(ts[1..]);
    }
  }

  function Joined(ts: seq<string>): string {
    if ts == [] then "" else ts[0] + Joined(ts[1..])
  }

  lemma JoinedStands(x: Expr, ts: seq<string>)
    requires WellFormed(x) && Defined(x) && Tokens(x, 0) == ts
    ensures Stands(Joined(ts), x)
  {
    hide Stands, Layout, Tokens, Joined;
    Close(ts);
    StandsIf(x, seq(|ts| + 1, _ => 0));
  }

  // One operator between two numbers.
  lemma OneOperator(a: Word, op: Op, b: Word)
    requires op.Shl? || op.Shr? ==> b < 64
    ensures Stands(Decimal(a) + OpText(op) + Decimal(b), Bin(op, Num(a), Num(b)))
  {
    hide Stands, Eval, OpText, Decimal, Num, Tokens;
    var x := Bin(op, Num(a), Num(b));
    NumIs(a, 6);
    NumIs(b, 6);
    PairTokens(a, op, b);
    LooseTokens(x);
    var ts := [Decimal(a), OpText(op), Decimal(b)];
    JoinedStands(x, ts);
    Three(Decimal(a), OpText(op), Decimal(b));
  }

  lemma LooseTokens(x: Expr)
    requires x.Bin?
    ensures Tokens(x, 0) == Tokens(x, Prec(x.op))
  {
  }

  lemma Three(s: string, t: string, u: string)
    ensures Joined([s, t, u]) == s + t + u
  {
    Two(t, u);
    assert [s, t, u][1..] == [t, u];
  }

  lemma Two(s: string, t: string)
    ensures Joined([s, t]) == s + t
  {
    assert [s, t][1..] == [t] && [t][1..] == [];
    assert Joined([t]) == t + "" == t;
  }

  // Each of the ten operators in its own spelling, and the two signs.
  lemma OperatorLines(a: Word, b: Word)
    ensures Stands(Decimal(a) + "+" + Decimal(b), Bin(Add, Num(a), Num(b)))
    ensures Stands(Decimal(a) + "-" + Decimal(b), Bin(Sub, Num(a), Num(b)))
    ensures Stands(Decimal(a) + "*" + Decimal(b), Bin(Mul, Num(a), Num(b)))
    ensures Stands(Decimal(a) + "/" + Decimal(b), Bin(Div, Num(a), Num(b)))
    ensures Stands(Decimal(a) + "%" + Decimal(b), Bin(Mod, Num(a), Num(b)))
    ensures Stands(Decimal(a) + "&" + Decimal(b), Bin(And, Num(a), Num(b)))
    ensures Stands(Decimal(a) + "^" + Decimal(b), Bin(Xor, Num(a), Num(b)))
    ensures Stands(Decimal(a) + "|" + Decimal(b), Bin(Or, Num(a), Num(b)))
    ensures b < 64 ==> Stands(Decimal(a) + "<<" + Decimal(b), Bin(Shl, Num(a), Num(b)))
    ensures b < 64 ==> Stands(Decimal(a) + ">>" + Decimal(b), Bin(Shr, Num(a), Num(b)))
    ensures Stands("~" + Decimal(a), Not(Num(a))) && Stands("-" + Decimal(a), Neg(Num(a)))
  {
    hide Stands, Decimal, Num;
    OneOperator(a, Add, b);
    OneOperator(a, Sub, b);
    OneOperator(a, Mul, b);
    OneOperator(a, Div, b);
    OneOperator(a, Mod, b);
    OneOperator(a, And, b);
    OneOperator(a, Xor, b);
    OneOperator(a, Or, b);
    if b < 64 {
      OneOperator(a, Shl, b);
      OneOperator(a, Shr, b);
    }
    OneSign(a, Not(Num(a)), "~");
    OneSign(a, Neg(Num(a)), "-");
  }

  lemma OneSign(a: Word, x: Expr, sign: string)
    requires (x == Not(Num(a)) && sign == "~") || (x == Neg(Num(a)) && sign == "-")
    ensures Stands(sign + Decimal(a), x)
  {
    hide Stands, Eval, Decimal, Num;
    NumIs(a, 6);
    var ts := [sign, Decimal(a)];
    assert Tokens(x, 0) == ts;
    JoinedStands(x, ts);
    Two(sign, Decimal(a));
  }

  // Two operators in a row: the first takes the middle number exactly when it binds at
  // least as tightly.
  function Grouped(a: Word, op: Op, b: Word, oq: Op, c: Word): Expr {
    if Prec(op) >= Prec(oq) then Bin(oq, Bin(op, Num(a), Num(b)), Num(c)) else Bin(op, Num(a), Bin(oq, Num(b), Num(c)))
  }

  lemma TwoOperators(a: Word, op: Op, b: Word, oq: Op, c: Word)
    requires Defined(Grouped(a, op, b, oq, c))
    ensures Stands(Decimal(a) + OpText(op) + Decimal(b) + OpText(oq) + Decimal(c), Grouped(a, op, b, oq, c))
  {
    hide Stands, Eval, OpText, Decimal, Num, Defined, Joined, Layout;
    var x := Grouped(a, op, b, oq, c);
    var ts := [Decimal(a), OpText(op), Decimal(b), OpText(oq), Decimal(c)];
    GroupedTokens(a, op, b, oq, c);
    JoinedStands(x, ts);
    Five(Decimal(a), OpText(op), Decimal(b), OpText(oq), Decimal(c));
  }

  lemma GroupedTokens(a: Word, op: Op, b: Word, oq: Op, c: Word)
    ensures var x := Grouped(a, op, b, oq, c);
            WellFormed(x) && Tokens(x, 0) == [Decimal(a), OpText(op), Decimal(b), OpText(oq), Decimal(c)]
  {
    hide OpText, Decimal, Num, Tokens;
    NumIs(a, 6);
    NumIs(b, 6);
    NumIs(c, 6);
    if Prec(op) >= Prec(oq) {
      LeftTokens(a, op, b, oq, c);
    } else {
      RightTokens(a, op, b, oq, c);
    }
  }

  lemma PrecIs(op: Op)
    ensures Prec(op) <= 5
  {
  }

  lemma PairTokens(a: Word, op: Op, b: Word)
    ensures Tokens(Bin(op, Num(a), Num(b)), Prec(op)) == [Decimal(a), OpText(op), Decimal(b)]
  {
    hide OpText, Decimal, Num, Tokens, Defined, Eval, WellFormed, Prec, LevelOf;
    BinTokens(Bin(op, Num(a), Num(b)));
    NumIs(a, Prec(op));
    NumIs(b, Prec(op) + 1);
  }

  lemma LeftTokens(a: Word, op: Op, b: Word, oq: Op, c: Word)
    requires Prec(op) >= Prec(oq)
    ensures Tokens(Bin(oq, Bin(op, Num(a), Num(b)), Num(c)), 0)
         == [Decimal(a), OpText(op), Decimal(b), OpText(oq), Decimal(c)]
  {
    hide OpText, Decimal, Num, Tokens, Defined, Eval, WellFormed, Prec, LevelOf;
    var x := Bin(oq, Bin(op, Num(a), Num(b)), Num(c));
    PrecIs(op);
    LooseTokens(x);
    BinTokens(x);
    TightTokens(x.l, Prec(oq));
    PairTokens(a, op, b);
    NumIs(c, Prec(oq) + 1);
  }

  lemma RightTokens(a: Word, op: Op, b: Word, oq: Op, c: Word)
    requires Prec(op) < Prec(oq)
    ensures Tokens(Bin(op, Num(a), Bin(oq, Num(b), Num(c))), 0)
         == [Decimal(a), OpText(op), Decimal(b), OpText(oq), Decimal(c)]
  {
    hide OpText, Decimal, Num, Tokens, Defined, Eval, WellFormed, Prec, LevelOf;
    var x := Bin(op, Num(a), Bin(oq, Num(b), Num(c)));
    PrecIs(op);
    LooseTokens(x);
    BinTokens(x);
    TightTokens(x.r, Prec(op) + 1);
    PairTokens(b, oq, c);
    NumIs(a, Prec(op));
  }

  lemma TightTokens(x: Expr, p: nat)
    requires x.Bin? && p <= Prec(x.op)
    ensures Tokens(x, p) == Tokens(x, Prec(x.op))
  {
  }

  lemma Five(s: string, t: string, u: string, v: string, w: string)
    ensures Joined([s, t, u, v, w]) == s + t + u + v + w
  {
    Three(u, v, w);
    assert [s, t, u, v, w][1..] == [t, u, v, w] && [t, u, v, w][1..] == [u, v, w];
  }

  // The precedence of C, from | up to the products, with equal operators from the left.
  lemma BitLines(a: Word, b: Word, c: Word)
    ensures var (s, t, u) := (Decimal(a), Decimal(b), Decimal(c));
            var (l, m, r) := (Num(a), Num(b), Num(c));
            && Stands(s + "|" + t + "^" + u, Bin(Or, l, Bin(Xor, m, r)))
            && Stands(s + "^" + t + "|" + u, Bin(Or, Bin(Xor, l, m), r))
            && Stands(s + "^" + t + "&" + u, Bin(Xor, l, Bin(And, m, r)))
            && Stands(s + "&" + t + "^" + u, Bin(Xor, Bin(And, l, m), r))
  {
    hide Stands, Decimal, Num, Eval;
    NumIs(a, 6);
    NumIs(b, 6);
    NumIs(c, 6);
    TwoOperators(a, Or, b, Xor, c);
    TwoOperators(a, Xor, b, Or, c);
    TwoOperators(a, Xor, b, And, c);
    TwoOperators(a, And, b, Xor, c);
  }

  lemma ShiftLines(a: Word, b: Word, c: Word)
    requires b < 64 && c < 64
    ensures var (s, t, u) := (Decimal(a), Decimal(b), Decimal(c));
            var (l, m, r) := (Num(a), Num(b), Num(c));
            && Stands(s + "&" + t + "<<" + u, Bin(And, l, Bin(Shl, m, r)))
            && Stands(s + ">>" + t + "&" + u, Bin(And, Bin(Shr, l, m), r))
            && Stands(s + "<<" + t + ">>" + u, Bin(Shr, Bin(Shl, l, m), r))
            && Stands(s + "+" + t + "<<" + u, Bin(Shl, Bin(Add, l, m), r))
            && Stands(s + "-" + t + ">>" + u, Bin(Shr, Bin(Sub, l, m), r))
  {
    hide Stands, Decimal, Num, Eval;
    NumIs(a, 6);
    NumIs(b, 6);
    NumIs(c, 6);
    TwoOperators(a, And, b, Shl, c);
    TwoOperators(a, Shr, b, And, c);
    TwoOperators(a, Shl, b, Shr, c);
    TwoOperators(a, Add, b, Shl, c);
    TwoOperators(a, Sub, b, Shr, c);
  }

  lemma SumLines(a: Word, b: Word, c: Word)
    ensures var (s, t, u) := (Decimal(a), Decimal(b), Decimal(c));
            var (l, m, r) := (Num(a), Num(b), Num(c));
            && Stands(s + "+" + t + "*" + u, Bin(Add, l, Bin(Mul, m, r)))
            && Stands(s + "/" + t + "-" + u, Bin(Sub, Bin(Div, l, m), r))
            && Stands(s + "-" + t + "+" + u, Bin(Add, Bin(Sub, l, m), r))
            && Stands(s + "/" + t + "*" + u, Bin(Mul, Bin(Div, l, m), r))
            && Stands(s + "*" + t + "%" + u, Bin(Mod, Bin(Mul, l, m), r))
  {
    hide Stands, Decimal, Num, Eval;
    NumIs(a, 6);
    NumIs(b, 6);
    NumIs(c, 6);
    TwoOperators(a, Add, b, Mul, c);
    TwoOperators(a, Div, b, Sub, c);
    TwoOperators(a, Sub, b, Add, c);
    TwoOperators(a, Div, b, Mul, c);
    TwoOperators(a, Mul, b, Mod, c);
  }

  // Where no operator stands: in a doubled | or &, in front of a single < or >, and in front
  // of anything else that is no part of an expression.
  predicate NoOperator(s: string) {
    var c, d := CharAt(s, 0), CharAt(s, 1);
    && c != ' ' && Delimits(c) && c != '^' && c != '+' && c != '-' && c != '*' && c != '/' && c != '%'
    && (c == '|' || c == '&' ==> d == c) && (c == '<' || c == '>' ==> d != c)
  }

  // There reading stops, and what follows is left as it is.
  lemma StopsThere(a: Word, rest: string, p: nat)
    requires NoOperator(rest) && p <= 6
    ensures Level(p, Decimal(a) + rest) == Parse(a, rest)
    decreases 6 - p
  {
    hide NoOperator, Decimal;
    RestStands(rest);
    if p == 6 {
      DecimalReads(a);
      DecimalStarts(a);
      NumberReads(Lit("", Decimal(a)), rest);
      assert "" + Decimal(a) + rest == Decimal(a) + rest;
    } else {
      StopsThere(a, rest, p + 1);
    }
  }

  lemma RestStands(rest: string)
    requires NoOperator(rest)
    ensures Skip(rest) == rest && Delimits(CharAt(rest, 0))
    ensures forall p :: 0 <= p <= 5 ==> OpAt(p, rest) == Nothing
  {
  }

  lemma {:induction false} DecimalStarts(a: nat)
    ensures |Decimal(a)| > 0 && '0' <= Decimal(a)[0] <= '9'
  {
    if a >= 10 {
      DecimalStarts(a / 10);
    }
  }

  // A missing parenthesis is taken as read, and a missing number as 0.
  lemma MalformedLines(a: Word, rest: string)
    requires NoOperator(rest) && CharAt(rest, 0) != ')'
    ensures Level(0, "(" + Decimal(a) + rest) == Parse(a, rest)
    ensures Level(0, "") == Parse(0, "")
  {
    hide NoOperator, Decimal;
    RestStands(rest);
    StopsThere(a, rest, 0);
    assert ("(" + Decimal(a) + rest)[1..] == Decimal(a) + rest;
    OpenReads("(" + Decimal(a) + rest, a, rest, 0);
    NothingReads(0);
  }

  lemma OpenReads(s: string, a: Word, rest: string, p: nat)
    requires |s| > 0 && s[0] == '(' && Level(0, s[1..]) == Parse(a, rest) && CharAt(rest, 0) != ')' && p <= 6
    requires Skip(rest) == rest && forall p :: 0 <= p <= 5 ==> OpAt(p, rest) == Nothing
    ensures Level(p, s) == Parse(a, rest)
    decreases 6 - p
  {
    hide OpAt;
    if p < 6 {
      OpenReads(s, a, rest, p + 1);
    }
  }

  lemma NothingReads(p: nat)
    requires p <= 6
    ensures Level(p, "") == Parse(0, "")
    decreases 6 - p
  {
    if p < 6 {
      NothingReads(p + 1);
    }
  }

  // ---------- the recursive-descent functions ----------

  lemma SixIsPrimary(s: string)
    ensures Level(6, s) == Primary(s) && |Level(6, s).rest| <= |s|
  {
  }

  lemma LevelIs(p: nat, s: string)
    requires p <= 5
    ensures Level(p, s) == Tail(p, Level(p + 1, s).v, Level(p + 1, s).rest)
    ensures |Level(p + 1, s).rest| <= |s|
  {
  }

  // One turn of the loop.
  lemma TailIs(p: nat, v: Word, s: string)
    requires p <= 5
    ensures var t := if p >= 3 then Skip(s) else s;
            var f := OpAt(p, t);
            if f.Nothing? then Tail(p, v, s) == Parse(v, t)
            else
              var r := Level(p + 1, t[f.width..]);
              Tail(p, v, s) == Tail(p, Apply(f.op, v, r.v), r.rest) && |r.rest| < |t| <= |s|
  {
  }

  class Calculator {
    var calcPtr: string

    constructor ()
      ensures calcPtr == ""
    {
      calcPtr := "";
    }

    method SkipSpaces()
      modifies this
      ensures calcPtr == Skip(old(calcPtr))
    {
      while CharAt(calcPtr, 0) == ' '
        invariant Skip(calcPtr) == Skip(old(calcPtr))
        decreases |calcPtr|
      {
        calcPtr := calcPtr[1..];
      }
    }

    method ScanDigits(hex: bool) returns (val: Word)
      modifies this
      ensures Parse(val, calcPtr) == Scan(old(calcPtr), hex, 0)
    {
      val := 0;
      while IsDigit(CharAt(calcPtr, 0), hex)
        invariant Scan(calcPtr, hex, val) == Scan(old(calcPtr), hex, 0)
        decreases |calcPtr|
      {
        var c := calcPtr[0];
        calcPtr := calcPtr[1..];
        val := (val * Base(hex) + DigitValue(c)) % 0x1_0000_0000_0000_0000;
      }
    }

    method CalcNum() returns (val: Word)
      modifies this
      ensures Parse(val, calcPtr) == Number(old(calcPtr))
    {
      SkipSpaces();
      if HexAhead(calcPtr) {
        calcPtr := calcPtr[2..];
        val := ScanDigits(true);
      } else {
        val := ScanDigits(false);
      }
    }

    method CalcPrimary() returns (v: Word)
      modifies this
      ensures Parse(v, calcPtr) == Level(6, old(calcPtr))
      decreases |calcPtr|, 0
    {
      hide Level, Number, Complement, Negated;
      SixIsPrimary(calcPtr);
      SkipSpaces();
      SkipTwice(old(calcPtr));
      var c := CharAt(calcPtr, 0);
      if c == '(' {
        calcPtr := calcPtr[1..];
        v := CalcExpr();
        if CharAt(calcPtr, 0) == ')' {
          calcPtr := calcPtr[1..];
        }
      } else if c == '~' {
        calcPtr := calcPtr[1..];
        SixIsPrimary(calcPtr);
        v := CalcPrimary();
        v := Complement(v);
      } else if c == '-' {
        calcPtr := calcPtr[1..];
        SixIsPrimary(calcPtr);
        v := CalcPrimary();
        v := Negated(v);
      } else {
        v := CalcNum();
      }
    }

    method CalcMul() returns (v: Word)
      modifies this
      ensures Parse(v, calcPtr) == Level(5, old(calcPtr))
      decreases |calcPtr|, 1
    {
      hide Level, Skip, Quot;
      LevelIs(5, calcPtr);
      v := CalcPrimary();
      while true
        invariant Tail(5, v, calcPtr) == Level(5, old(calcPtr)) && |calcPtr| <= |old(calcPtr)|
        decreases |calcPtr|
      {
        TailIs(5, v, calcPtr);
        SkipSpaces();
        if CharAt(calcPtr, 0) == '*' {
          calcPtr := calcPtr[1..];
          var d := CalcPrimary();
          v := v * d % 0x1_0000_0000_0000_0000;
        } else if CharAt(calcPtr, 0) == '/' {
          calcPtr := calcPtr[1..];
          var d := CalcPrimary();
          v := if d != 0 then Quot(v, d) else 0;
        } else if CharAt(calcPtr, 0) == '%' {
          calcPtr := calcPtr[1..];
          var d := CalcPrimary();
          v := if d != 0 then v % d else 0;
        } else {
          break;
        }
      }
    }

    method CalcAdd() returns (v: Word)
      modifies this
      ensures Parse(v, calcPtr) == Level(4, old(calcPtr))
      decreases |calcPtr|, 2
    {
      hide Level, Skip;
      LevelIs(4, calcPtr);
      v := CalcMul();
      while true
        invariant Tail(4, v, calcPtr) == Level(4, old(calcPtr)) && |calcPtr| <= |old(calcPtr)|
        decreases |calcPtr|
      {
        TailIs(4, v, calcPtr);
        SkipSpaces();
        if CharAt(calcPtr, 0) == '+' {
          calcPtr := calcPtr[1..];
          var d := CalcMul();
          v := (v + d) % 0x1_0000_0000_0000_0000;
        } else if CharAt(calcPtr, 0) == '-' {
          calcPtr := calcPtr[1..];
          var d := CalcMul();
          v := (v + TWO64 - d) % 0x1_0000_0000_0000_0000;
        } else {
          break;
        }
      }
    }

    method CalcShift() returns (v: Word)
      modifies this
      ensures Parse(v, calcPtr) == Level(3, old(calcPtr))
      decreases |calcPtr|, 3
    {
      hide Level, Skip, Pow2, Halved;
      LevelIs(3, calcPtr);
      v := CalcAdd();
      while true
        invariant Tail(3, v, calcPtr) == Level(3, old(calcPtr)) && |calcPtr| <= |old(calcPtr)|
        decreases |calcPtr|
      {
        TailIs(3, v, calcPtr);
        SkipSpaces();
        if CharAt(calcPtr, 0) == '<' && CharAt(calcPtr, 1) == '<' {
          calcPtr := calcPtr[2..];
          var d := CalcAdd();
          v := Apply(Shl, v, d);
        } else if CharAt(calcPtr, 0) == '>' && CharAt(calcPtr, 1) == '>' {
          calcPtr := calcPtr[2..];
          var d := CalcAdd();
          v := Apply(Shr, v, d);
        } else {
          break;
        }
      }
    }

    method CalcBand() returns (v: Word)
      modifies this
      ensures Parse(v, calcPtr) == Level(2, old(calcPtr))
      decreases |calcPtr|, 4
    {
      hide Level, Skip, Apply;
      LevelIs(2, calcPtr);
      v := CalcShift();
      while CharAt(calcPtr, 0) == '&' && CharAt(calcPtr, 1) != '&'
        invariant Tail(2, v, calcPtr) == Level(2, old(calcPtr)) && |calcPtr| <= |old(calcPtr)|
        decreases |calcPtr|
      {
        TailIs(2, v, calcPtr);
        calcPtr := calcPtr[1..];
        var d := CalcShift();
        v := Apply(And, v, d);
      }
      TailIs(2, v, calcPtr);
    }

    method CalcBxor() returns (v: Word)
      modifies this
      ensures Parse(v, calcPtr) == Level(1, old(calcPtr))
      decreases |calcPtr|, 5
    {
      hide Level, Skip, Apply;
      LevelIs(1, calcPtr);
      v := CalcBand();
      while CharAt(calcPtr, 0) == '^'
        invariant Tail(1, v, calcPtr) == Level(1, old(calcPtr)) && |calcPtr| <= |old(calcPtr)|
        decreases |calcPtr|
      {
        TailIs(1, v, calcPtr);
        calcPtr := calcPtr[1..];
        var d := CalcBand();
        v := Apply(Xor, v, d);
      }
      TailIs(1, v, calcPtr);
    }

    method CalcBor() returns (v: Word)
      modifies this
      ensures Parse(v, calcPtr) == Level(0, old(calcPtr))
      decreases |calcPtr|, 6
    {
      hide Level, Skip, Apply;
      LevelIs(0, calcPtr);
      v := CalcBxor();
      while CharAt(calcPtr, 0) == '|' && CharAt(calcPtr, 1) != '|'
        invariant Tail(0, v, calcPtr) == Level(0, old(calcPtr)) && |calcPtr| <= |old(calcPtr)|
        decreases |calcPtr|
      {
        TailIs(0, v, calcPtr);
        calcPtr := calcPtr[1..];
        var d := CalcBxor();
        v := Apply(Or, v, d);
      }
      TailIs(0, v, calcPtr);
    }

    method CalcExpr() returns (v: Word)
      modifies this
      ensures Parse(v, calcPtr) == Level(0, old(calcPtr))
      decreases |calcPtr|, 7
    {
      v := CalcBor();
    }

    // The calculator on the text of an expression, however it is spaced.
    method CmdCalc(expr: string, ghost x: Expr, ghost gaps: seq<nat>) returns (result: Word)
      modifies this
      ensures Parse(result, calcPtr) == Level(0, expr)
      ensures WellFormed(x) && Defined(x) && |gaps| == |Tokens(x, 0)| + 1 && expr == Layout(Tokens(x, 0), gaps) ==>
                && calcPtr == "" && Denotes(x, result)
                && (forall v :: Denotes(x, v) ==> v == result)
                && (Polynomial(x) ==> result == Exact(x) % 0x1_0000_0000_0000_0000)
    {
      hide Level, Denotes, Defined, Polynomial, Layout, Eval, Tokens;
      calcPtr := expr;
      result := CalcExpr();
      if WellFormed(x) && Defined(x) && |gaps| == |Tokens(x, 0)| + 1 && expr == Layout(Tokens(x, 0), gaps) {
        ParserInvertsPrinter(x, gaps);
        EvalDenotes(x);
        forall v | Denotes(x, v)
          ensures v == Eval(x)
        {
          DenotesOnce(x, v);
        }
        if Polynomial(x) {
          EvalIsExactMod(x);
        }
      }
    }
  }
}
