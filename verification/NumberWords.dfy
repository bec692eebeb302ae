/** Amounts written out in words with Indic grouping (backend/core/numbers.py).

    The printer builds strings.  Its partner is a reader: a left fold over the
    printed words that recovers the number, from which injectivity follows. */
module NumberWords {
  import opened Options

  type UnitIndex = n: nat | n < 20
  type TensIndex = t: nat | 2 <= t < 10 witness 2

  datatype Word =
    | Unit(n: UnitIndex) | Tens(t: TensIndex)
    | And | Hundred | Thousand | Lakh | Crore | Minus

  const UNITS: seq<string> := [
    "zero", "one", "two", "three", "four", "five", "six", "seven", "eight",
    "nine", "ten", "eleven", "twelve", "thirteen", "fourteen", "fifteen",
    "sixteen", "seventeen", "eighteen", "nineteen"
  ]
  const TENS: seq<string> := [
    "", "", "twenty", "thirty", "forty", "fifty", "sixty", "seventy", "eighty", "ninety"
  ]
  const CRORE := 10_000_000
  const LAKH := 100_000

  function Spell(w: Word): string {
    match w
    case Unit(n) => UNITS[n]
    case Tens(t) => TENS[t]
    case And => "and"
    case Hundred => "hundred"
    case Thousand => "thousand"
    case Lakh => "lakh"
    case Crore => "crore"
    case Minus => "minus"
  }

  // ---------- text: words separated by single spaces ----------

  /** Python's `" ".join(parts)`. */
  function Join(parts: seq<string>): string {
    if |parts| == 0 then ""
    else if |parts| == 1 then parts[0]
    else parts[0] + " " + Join(parts[1..])
  }

  function Spelled(ws: seq<Word>): seq<string> {
    seq(|ws|, i requires 0 <= i < |ws| => Spell(ws[i]))
  }

  function Text(ws: seq<Word>): string {
    Join(Spelled(ws))
  }

  /** The cut at single spaces that undoes `Join`. */
  function Cut(s: string): seq<string>
    decreases |s|
  {
    if ' ' !in s then [s]
    else
      var i := FirstSpace(s);
      [s[..i]] + Cut(s[i + 1..])
  }

  function FirstSpace(s: string): (i: nat)
    requires ' ' in s
    ensures i < |s| && s[i] == ' ' && ' ' !in s[..i]
  {
    if s[0] == ' ' then 0
    else
      var rest := FirstSpace(s[1..]);
      assert s[..rest + 1] == [s[0]] + s[1..][..rest];
      rest + 1
  }

  ghost predicate Token(s: string) {
    s != "" && ' ' !in s
  }

  lemma FirstSpaceOf(t: string, rest: string)
    requires ' ' !in t
    ensures ' ' in t + " " + rest
    ensures FirstSpace(t + " " + rest) == |t|
  {
    var s := t + " " + rest;
    assert s[|t|] == ' ';
    var i := FirstSpace(s);
    assert forall j | 0 <= j < |t| :: s[j] == t[j];
    assert forall j | 0 <= j < i :: s[..i][j] == s[j];
  }

  lemma {:induction false} CutJoin(parts: seq<string>)
    requires parts != []
    requires forall p <- parts :: ' ' !in p
    ensures Cut(Join(parts)) == parts
  {
    if |parts| > 1 {
      var rest := Join(parts[1..]);
      FirstSpaceOf(parts[0], rest);
      CutJoin(parts[1..]);
      var s := parts[0] + " " + rest;
      assert s[..|parts[0]|] == parts[0];
      assert s[|parts[0]| + 1..] == rest;
    }
  }

  lemma {:induction false} JoinAppend(a: seq<string>, b: seq<string>)
    requires a != [] && b != []
    ensures Join(a + b) == Join(a) + " " + Join(b)
  {
    if |a| == 1 {
      assert (a + b)[1..] == b;
    } else {
      JoinAppend(a[1..], b);
      assert (a + b)[1..] == a[1..] + b;
    }
  }

  lemma TextAppend(a: seq<Word>, b: seq<Word>)
    requires a != [] && b != []
    ensures Text(a + b) == Text(a) + " " + Text(b)
  {
    assert Spelled(a + b) == Spelled(a) + Spelled(b);
    JoinAppend(Spelled(a), Spelled(b));
  }

  // ---------- the vocabulary is unambiguous ----------

  function Signature(w: Word): (nat, char, char, char) {
    match w
    case And => (3, 'a', 'n', 'd')
    case Hundred => (7, 'h', 'u', 'd')
    case Thousand => (8, 't', 'h', 'd')
    case Lakh => (4, 'l', 'a', 'h')
    case Crore => (5, 'c', 'r', 'e')
    case Minus => (5, 'm', 'i', 's')
    case Tens(t) =>
      [(6, 't', 'w', 'y'), (6, 't', 'h', 'y'), (5, 'f', 'o', 'y'), (5, 'f', 'i', 'y'),
       (5, 's', 'i', 'y'), (7, 's', 'e', 'y'), (6, 'e', 'i', 'y'), (6, 'n', 'i', 'y')][t - 2]
    case Unit(n) =>
      [(4, 'z', 'e', 'o'), (3, 'o', 'n', 'e'), (3, 't', 'w', 'o'), (5, 't', 'h', 'e'),
       (4, 'f', 'o', 'r'), (4, 'f', 'i', 'e'), (3, 's', 'i', 'x'), (5, 's', 'e', 'n'),
       (5, 'e', 'i', 't'), (4, 'n', 'i', 'e'), (3, 't', 'e', 'n'), (6, 'e', 'l', 'n'),
       (6, 't', 'w', 'e'), (8, 't', 'h', 'n'), (8, 'f', 'o', 'n'), (7, 'f', 'i', 'n'),
       (7, 's', 'i', 'n'), (9, 's', 'e', 'n'), (8, 'e', 'i', 'n'), (8, 'n', 'i', 'n')][n]
  }

  ghost predicate Signed(w: Word) {
    var s := Spell(w);
    |s| >= 3 && Signature(w) == (|s|, s[0], s[1], s[|s| - 1]) && ' ' !in s
  }

  lemma UnitsSigned(n: UnitIndex)
    ensures Signed(Unit(n))
  {
  }

  lemma TensSigned(t: TensIndex)
    ensures Signed(Tens(t))
  {
  }

  lemma SpellSignature(w: Word)
    ensures Signed(w)
  {
    match w
    case Unit(n) => UnitsSigned(n);
    case Tens(t) => TensSigned(t);
    case _ =>
  }

  lemma SignatureInjective(a: Word, b: Word)
    requires Signature(a) == Signature(b)
    ensures a == b
  {
    if a.Unit? { UnitSignature(a.n, b); }
    else if b.Unit? { UnitSignature(b.n, a); }
  }

  lemma UnitSignature(n: UnitIndex, b: Word)
    requires Signature(Unit(n)) == Signature(b)
    ensures Unit(n) == b
  {
  }

  lemma SpellInjective(a: Word, b: Word)
    requires Spell(a) == Spell(b)
    ensures a == b
  {
    SpellSignature(a);
    SpellSignature(b);
    SignatureInjective(a, b);
  }

  lemma SpelledAreTokens(ws: seq<Word>)
    ensures forall t <- Spelled(ws) :: Token(t)
  {
    forall i | 0 <= i < |ws| ensures Token(Spelled(ws)[i]) { SpellSignature(ws[i]); }
  }

  lemma SpelledInjective(a: seq<Word>, b: seq<Word>)
    requires Spelled(a) == Spelled(b)
    ensures a == b
  {
    assert |a| == |Spelled(a)| == |b|;
    forall i | 0 <= i < |a| ensures a[i] == b[i] {
      assert Spelled(a)[i] == Spelled(b)[i];
      SpellInjective(a[i], b[i]);
    }
  }

  // ---------- how a number is said ----------

  /** The words of a positive number; nothing for zero.  Said recursively, largest unit
      first, independently of how the code slices a number into groups. */
  function Said(n: nat): (ws: seq<Word>)
    ensures ws == [] <==> n == 0
    ensures ws != [] ==> ws[0] != Minus
  {
    if n == 0 then []
    else if n < 20 then [Unit(n)]
    else if n < 100 then [Tens(n / 10)] + Said(n % 10)
    else if n < 1000 then [Unit(n / 100), Hundred] + (if n % 100 > 0 then [And] + Said(n % 100) else [])
    else if n < LAKH then Said(n / 1000) + [Thousand] + Said(n % 1000)
    else if n < CRORE then Said(n / LAKH) + [Lakh] + Said(n % LAKH)
    else Said(n / CRORE) + [Crore] + Said(n % CRORE)
  }

  function Words(number: int): (ws: seq<Word>) {
    if number < 0 then [Minus] + Said(-number) else if number == 0 then [Unit(0)] else Said(number)
  }

  /** A group with its unit, or nothing. */
  function Group(value: nat, unit: Word): seq<Word> {
    if value == 0 then [] else Said(value) + [unit]
  }

  // ---------- the reader ----------

  /** `total` holds the closed groups, `current` the group being read. */
  datatype Reading = Reading(total: int, current: int)

  function Read(r: Reading, w: Word): Reading {
    match w
    case Unit(n) => r.(current := r.current + n)
    case Tens(t) => r.(current := r.current + 10 * t)
    case Hundred => r.(current := r.current * 100)
    case Thousand => Reading(r.total + r.current * 1000, 0)
    case Lakh => Reading(r.total + r.current * LAKH, 0)
    case Crore => Reading((r.total + r.current) * CRORE, 0)
    case And => r
    case Minus => r
  }

  function ReadAll(ws: seq<Word>, r: Reading): Reading {
    if ws == [] then r else ReadAll(ws[1..], Read(r, ws[0]))
  }

  function Value(ws: seq<Word>): int
    decreases |ws|
  {
    if ws != [] && ws[0] == Minus then -Value(ws[1..])
    else
      var r := ReadAll(ws, Reading(0, 0));
      r.total + r.current
  }

  ghost predicate IsWord(t: string) {
    exists w :: Spell(w) == t
  }

  ghost function Unspell(t: string): (w: Word)
    requires IsWord(t)
    ensures Spell(w) == t
  {
    var w :| Spell(w) == t; w
  }

  /** The missing parser: cut the text at spaces, look every token up, fold. */
  ghost function Parse(text: string): (r: Option<int>) {
    var tokens := Cut(text);
    if forall i | 0 <= i < |tokens| :: IsWord(tokens[i]) then
      Some(Value(seq(|tokens|, i requires 0 <= i < |tokens| => Unspell(tokens[i]))))
    else
      None
  }

  lemma {:induction false} ReadAppend(a: seq<Word>, b: seq<Word>, r: Reading)
    ensures ReadAll(a + b, r) == ReadAll(b, ReadAll(a, r))
  {
    if a == [] {
      assert a + b == b;
    } else {
      assert (a + b)[1..] == a[1..] + b;
      ReadAppend(a[1..], b, Read(r, a[0]));
    }
  }

  lemma ReadOne(w: Word, r: Reading)
    ensures ReadAll([w], r) == Read(r, w)
  {
    assert [w][1..] == [];
  }

  lemma {:induction false} ReadUnderHundred(n: nat, r: Reading)
    requires n < 100
    ensures ReadAll(Said(n), r) == r.(current := r.current + n)
  {
    if 0 < n < 20 {
      ReadOne(Unit(n), r);
    } else if n >= 20 {
      ReadOne(Tens(n / 10), r);
      ReadAppend([Tens(n / 10)], Said(n % 10), r);
      ReadUnderHundred(n % 10, Read(r, Tens(n / 10)));
    }
  }

  lemma ReadUnderThousand(n: nat, total: int)
    requires n < 1000
    ensures ReadAll(Said(n), Reading(total, 0)) == Reading(total, n)
  {
    var r := Reading(total, 0);
    if n < 100 {
      ReadUnderHundred(n, r);
    } else {
      var h, low := n / 100, n % 100;
      assert [Unit(h), Hundred] == [Unit(h)] + [Hundred];
      ReadOne(Unit(h), r);
      ReadOne(Hundred, Reading(total, h));
      ReadAppend([Unit(h)], [Hundred], r);
      if low > 0 {
        var rest := [And] + Said(low);
        ReadAppend([Unit(h), Hundred], rest, r);
        ReadOne(And, Reading(total, 100 * h));
        ReadAppend([And], Said(low), Reading(total, 100 * h));
        ReadUnderHundred(low, Reading(total, 100 * h));
      } else {
        assert [Unit(h), Hundred] + [] == [Unit(h), Hundred];
      }
    }
  }

  /** Reading a group that carries a unit, then the rest. */
  lemma ReadUnit(group: seq<Word>, unit: Word, rest: seq<Word>, r: Reading)
    ensures ReadAll(group + [unit] + rest, r) == ReadAll(rest, Read(ReadAll(group, r), unit))
  {
    ReadAppend(group + [unit], rest, r);
    ReadAppend(group, [unit], r);
    ReadOne(unit, ReadAll(group, r));
  }

  lemma ReadUnderCrore(n: nat, total: int)
    requires n < CRORE
    ensures var r := ReadAll(Said(n), Reading(total, 0)); r.total + r.current == total + n
  {
    if n < 1000 {
      ReadUnderThousand(n, total);
    } else if n < LAKH {
      ReadUnderLakh(n, total);
    } else {
      ReadUnit(Said(n / LAKH), Lakh, Said(n % LAKH), Reading(total, 0));
      ReadUnderThousand(n / LAKH, total);
      ReadUnderLakh(n % LAKH, total + n / LAKH * LAKH);
    }
  }

  lemma ReadUnderLakh(n: nat, total: int)
    requires n < LAKH
    ensures var r := ReadAll(Said(n), Reading(total, 0)); r.total + r.current == total + n
  {
    if n < 1000 {
      ReadUnderThousand(n, total);
    } else {
      ReadUnit(Said(n / 1000), Thousand, Said(n % 1000), Reading(total, 0));
      ReadUnderThousand(n / 1000, total);
      ReadUnderThousand(n % 1000, total + n / 1000 * 1000);
    }
  }

  lemma {:induction false} ReadSaid(n: nat)
    ensures var r := ReadAll(Said(n), Reading(0, 0)); r.total + r.current == n
    decreases n
  {
    if n < CRORE {
      ReadUnderCrore(n, 0);
    } else {
      ReadSaid(n / CRORE);
      ReadUnit(Said(n / CRORE), Crore, Said(n % CRORE), Reading(0, 0));
      ReadUnderCrore(n % CRORE, n / CRORE * CRORE);
    }
  }

  lemma ValueOfWords(number: int)
    ensures Words(number) != []
    ensures Value(Words(number)) == number
  {
    if number < 0 {
      ReadSaid(-number);
      assert Words(number)[1..] == Said(-number);
    } else if number == 0 {
      ReadOne(Unit(0), Reading(0, 0));
    } else {
      ReadSaid(number);
    }
  }

  /** The reader inverts the printer on every integer. */
  lemma ParseInvertsText(number: int)
    ensures Parse(Text(Words(number))) == Some(number)
  {
    var ws := Words(number);
    SpelledAreTokens(ws);
    CutJoin(Spelled(ws));
    var tokens := Cut(Text(ws));
    assert tokens == Spelled(ws);
    assert forall i | 0 <= i < |tokens| :: tokens[i] == Spell(ws[i]) && IsWord(tokens[i]);
    var back := seq(|tokens|, i requires 0 <= i < |tokens| => Unspell(tokens[i]));
    forall i | 0 <= i < |tokens| ensures back[i] == ws[i] {
      SpellInjective(back[i], ws[i]);
    }
    assert back == ws;
    ValueOfWords(number);
  }

  // ---------- the string-building code ----------

  lemma Push(parts: seq<string>, ws: seq<Word>, part: string, more: seq<Word>)
    requires Join(parts) == Text(ws) && (parts == [] <==> ws == [])
    requires part == Text(more) && more != []
    ensures Join(parts + [part]) == Text(ws + more)
  {
    if ws == [] {
      assert ws + more == more && parts + [part] == [part];
    } else {
      JoinAppend(parts, [part]);
      TextAppend(ws, more);
    }
  }

  lemma TextOf(a: Word)
    ensures Text([a]) == Spell(a)
  {
    assert Spelled([a]) == [Spell(a)];
  }

  /** One more word at the end of a non-empty text. */
  lemma TextThen(ws: seq<Word>, unit: Word)
    requires ws != []
    ensures Text(ws + [unit]) == Text(ws) + " " + Spell(unit)
  {
    TextAppend(ws, [unit]);
    TextOf(unit);
  }

  lemma PushWord(parts: seq<string>, ws: seq<Word>, w: Word)
    requires Join(parts) == Text(ws) && (parts == [] <==> ws == [])
    ensures Join(parts + [Spell(w)]) == Text(ws + [w])
  {
    TextOf(w);
    Push(parts, ws, Spell(w), [w]);
  }

  lemma HundredText(n: UnitIndex)
    ensures Text([Unit(n), Hundred]) == UNITS[n] + " " + Spell(Hundred)
  {
    TextOf(Unit(n));
    TextThen([Unit(n)], Hundred);
    assert [Unit(n)] + [Hundred] == [Unit(n), Hundred];
  }

  method UnderThousand(value: nat) returns (text: string)
    requires value < 1000
    ensures text == Text(Said(value))
  {
    var words, v := [], value;
    ghost var ws: seq<Word> := [];
    if v >= 100 {
      HundredText(v / 100);
      words, ws := [UNITS[v / 100] + " " + Spell(Hundred)], [Unit(v / 100), Hundred];
      v := v % 100;
      assert Join(words) == Text(ws);
      if v != 0 {
        PushWord(words, ws, And);
        words, ws := words + [Spell(And)], ws + [And];
      }
    }
    assert Said(value) == ws + Said(v);
    if v >= 20 {
      PushWord(words, ws, Tens(v / 10));
      words, ws := words + [TENS[v / 10]], ws + [Tens(v / 10)];
      if v % 10 != 0 {
        PushWord(words, ws, Unit(v % 10));
        words, ws := words + [UNITS[v % 10]], ws + [Unit(v % 10)];
      }
    } else if v != 0 {
      PushWord(words, ws, Unit(v));
      words, ws := words + [UNITS[v]], ws + [Unit(v)];
    }
    assert ws == Said(value);
    text := Join(words);
  }

  /** One more group, as the code appends it, keeps text and words in step. */
  lemma PushGroup(parts: seq<string>, ws: seq<Word>, text: string, group: seq<Word>, unit: Word)
    requires Join(parts) == Text(ws) && (parts == [] <==> ws == [])
    requires group != [] && text == Text(group)
    ensures Join(parts + [text + " " + Spell(unit)]) == Text(ws + (group + [unit]))
  {
    TextThen(group, unit);
    Push(parts, ws, text + " " + Spell(unit), group + [unit]);
  }

  /** `if value: parts.append(f"{_under_thousand(value)} {unit}")`. */
  method AppendGroup(parts: seq<string>, ghost ws: seq<Word>, value: nat, unit: Word) returns (more: seq<string>)
    requires value < 1000
    requires Join(parts) == Text(ws) && (parts == [] <==> ws == [])
    ensures Join(more) == Text(ws + Group(value, unit)) && (more == [] <==> ws + Group(value, unit) == [])
  {
    if value == 0 {
      assert ws + Group(value, unit) == ws;
      return parts;
    }
    var t := UnderThousand(value);
    PushGroup(parts, ws, t, Said(value), unit);
    return parts + [t + " " + Spell(unit)];
  }

  lemma PeelCrore(n: nat)
    ensures Said(n) == Group(n / CRORE, Crore) + Said(n % CRORE)
  {
  }

  lemma PeelLakh(n: nat)
    requires n < CRORE
    ensures Said(n) == Group(n / LAKH, Lakh) + Said(n % LAKH)
  {
  }

  lemma PeelThousand(n: nat)
    requires n < LAKH
    ensures Said(n) == Group(n / 1000, Thousand) + Said(n % 1000)
  {
  }

  lemma Slices(value: nat, number: nat, lakh: nat, thousand: nat, remainder: nat, ws: seq<Word>)
    requires value < CRORE
    requires lakh == value / LAKH && number == value % LAKH
    requires thousand == number / 1000 && remainder == number % 1000
    ensures lakh < 100 && thousand < 100 && remainder < 1000
    ensures ws + Said(value) == ws + Group(lakh, Lakh) + Group(thousand, Thousand) + Said(remainder)
  {
    PeelLakh(value);
    PeelThousand(number);
    Regroup(ws, Group(lakh, Lakh), Group(thousand, Thousand), Said(remainder));
  }

  lemma Regroup(ws: seq<Word>, a: seq<Word>, b: seq<Word>, c: seq<Word>)
    ensures ws + (a + (b + c)) == ws + a + b + c
  {
  }

  lemma MinusText(value: int)
    requires value < 0
    ensures Text(Words(value)) == Spell(Minus) + " " + Text(Words(-value))
  {
    TextOf(Minus);
    TextAppend([Minus], Said(-value));
  }

  lemma CroreFirst(value: nat, crore: nat, number: nat)
    requires value > 0 && crore == value / CRORE && number == value % CRORE
    ensures number < CRORE && crore < value
    ensures Words(value) == Group(crore, Crore) + Said(number)
  {
    PeelCrore(value);
  }

  lemma CroreText(crore: nat, text: string)
    requires crore > 0 && text == Text(Words(crore)) + " " + Spell(Crore)
    ensures Join([text]) == Text(Group(crore, Crore)) && Group(crore, Crore) != []
  {
    TextThen(Said(crore), Crore);
  }

  lemma ZeroText()
    ensures Text(Words(0)) == Spell(Unit(0))
  {
    TextOf(Unit(0));
  }

  lemma NoCrore()
    ensures Group(0, Crore) == [] && Join([]) == Text([])
  {
  }

  method NumberToWordsIndic(value: int) returns (text: string)
    ensures text == Text(Words(value))
    decreases value < 0, if value < 0 then -value else value
  {
    hide Words, Said, Group, Text, Join, Spell;
    if value < 0 {
      var rest := NumberToWordsIndic(-value);
      MinusText(value);
      return Spell(Minus) + " " + rest;
    }
    if value == 0 {
      ZeroText();
      return Spell(Unit(0));
    }
    var crore, number := value / CRORE, value % CRORE;
    CroreFirst(value, crore, number);
    var parts: seq<string> := [];
    NoCrore();
    if crore != 0 {
      var t := NumberToWordsIndic(crore);
      parts := [t + " " + Spell(Crore)];
      CroreText(crore, parts[0]);
    }
    text := UnderCrore(parts, Group(crore, Crore), number);
  }

  /** The tail of the same function: lakh, thousand, and the final 0 to 999. */
  method UnderCrore(open: seq<string>, ghost ws: seq<Word>, value: nat) returns (text: string)
    requires value < CRORE
    requires Join(open) == Text(ws) && (open == [] <==> ws == [])
    ensures text == Text(ws + Said(value))
  {
    var lakh, number := value / LAKH, value % LAKH;
    var thousand, remainder := number / 1000, number % 1000;
    Slices(value, number, lakh, thousand, remainder, ws);
    var parts := AppendGroup(open, ws, lakh, Lakh);
    parts := AppendGroup(parts, ws + Group(lakh, Lakh), thousand, Thousand);
    ghost var us := ws + Group(lakh, Lakh) + Group(thousand, Thousand);
    if remainder != 0 {
      var t := UnderThousand(remainder);
      Push(parts, us, t, Said(remainder));
      parts := parts + [t];
    } else {
      assert us + Said(remainder) == us;
    }
    text := Join(parts);
  }

  // ---------- how it reads ----------

  /** "and" stands between a hundred and the rest of its group, and nowhere else; a ten is
      followed by a unit from one to nine, if by any; zero is said alone. */
  ghost predicate Idiomatic(ws: seq<Word>) {
    && (forall i | 0 <= i < |ws| && ws[i] == And ::
          0 < i < |ws| - 1 && ws[i - 1] == Hundred && (ws[i + 1].Unit? || ws[i + 1].Tens?))
    && (forall i | 0 <= i < |ws| - 1 && ws[i] == Hundred :: !ws[i + 1].Unit? && !ws[i + 1].Tens?)
    && (forall i | 0 <= i < |ws| - 1 && ws[i].Tens? && ws[i + 1].Unit? :: ws[i + 1].n < 10)
    && (forall i | 0 <= i < |ws| && ws[i] == Unit(0) :: |ws| == 1)
  }

  /** Words of a positive number, as far as how they read goes. */
  ghost predicate ReadsWell(ws: seq<Word>) {
    && Idiomatic(ws) && (forall i | 0 <= i < |ws| :: ws[i] != Unit(0))
    && (ws != [] ==> ws[0].Unit? || ws[0].Tens?)
  }

  lemma GroupsReadWell(a: seq<Word>, unit: Word, b: seq<Word>)
    requires ReadsWell(a) && ReadsWell(b) && a != [] && (unit == Thousand || unit == Lakh || unit == Crore)
    ensures ReadsWell(a + [unit] + b)
  {
    var ws, n := a + [unit] + b, |a|;
    assert forall i | n < i < |ws| :: ws[i] == b[i - n - 1];
    assert forall i | 0 <= i < n :: ws[i] == a[i];
  }

  lemma TensReadWell(t: TensIndex, b: seq<Word>)
    requires ReadsWell(b) && (b == [] || (|b| == 1 && b[0].Unit? && b[0].n < 10))
    ensures ReadsWell([Tens(t)] + b)
  {
  }

  lemma HundredsReadWell(n: UnitIndex, b: seq<Word>)
    requires n != 0 && ReadsWell(b)
    ensures ReadsWell([Unit(n), Hundred]) && (b != [] ==> ReadsWell([Unit(n), Hundred] + ([And] + b)))
  {
    var ws := [Unit(n), Hundred] + ([And] + b);
    assert forall i | 3 <= i < |ws| :: ws[i] == b[i - 3];
    assert ws[0] == Unit(n) && ws[1] == Hundred && ws[2] == And;
  }

  lemma SmallReadsWell(n: nat)
    requires n < 20
    ensures ReadsWell(Said(n))
  {
  }

  lemma {:induction false} SaidReadsWell(n: nat)
    ensures ReadsWell(Said(n))
    decreases n
  {
    hide ReadsWell;
    if n < 20 {
      SmallReadsWell(n);
    } else if n < 100 {
      SaidReadsWell(n % 10);
      TensReadWell(n / 10, Said(n % 10));
    } else if n < 1000 {
      SaidReadsWell(n % 100);
      HundredsReadWell(n / 100, Said(n % 100));
      assert [Unit(n / 100), Hundred] + [] == [Unit(n / 100), Hundred];
    } else {
      var unit := if n < LAKH then 1000 else if n < CRORE then LAKH else CRORE;
      SaidReadsWell(n / unit);
      SaidReadsWell(n % unit);
      GroupsReadWell(Said(n / unit), if n < LAKH then Thousand else if n < CRORE then Lakh else Crore, Said(n % unit));
    }
  }

  lemma WordsAreIdiomatic(number: int)
    ensures Idiomatic(Words(number))
  {
    if number != 0 { SaidReadsWell(if number < 0 then -number else number); }
  }

  /** The words themselves, in the order of the numbers they stand for. */
  lemma Vocabulary()
    ensures seq(20, i requires 0 <= i < 20 => Spell(Unit(i))) == [
      "zero", "one", "two", "three", "four", "five", "six", "seven", "eight", "nine", "ten", "eleven", "twelve",
      "thirteen", "fourteen", "fifteen", "sixteen", "seventeen", "eighteen", "nineteen"]
    ensures seq(8, i requires 0 <= i < 8 => Spell(Tens(i + 2))) == [
      "twenty", "thirty", "forty", "fifty", "sixty", "seventy", "eighty", "ninety"]
    ensures Spelled([Minus, Crore, Lakh, Thousand, Hundred, And]) == [
      "minus", "crore", "lakh", "thousand", "hundred", "and"]
  {
  }

  // ---------- money ----------

  /** Rounding half to even, the default of Decimal.quantize. */
  function HalfEven(x: real): (r: int)
    ensures -0.5 <= x - r as real <= 0.5
    ensures x - r as real == 0.5 || x - r as real == -0.5 ==> r % 2 == 0
  {
    var f := x.Floor;
    if x - f as real < 0.5 || (x - f as real == 0.5 && f % 2 == 0) then f else f + 1
  }

  /** An amount in paisa. */
  function Paisa(amount: real): int {
    HalfEven(amount * 100.0)
  }

  /** Python's `int(...)` of a number of hundredths: truncation toward zero. */
  function Whole(paisa: int): int {
    if paisa >= 0 then paisa / 100 else -(-paisa / 100)
  }

  function Fraction(paisa: int): int {
    paisa - 100 * Whole(paisa)
  }

  /** The phrase before the final clean-up of double spaces. */
  function Phrase(paisa: int, currency: string, subunit: string): string {
    currency + " " + Text(Words(Whole(paisa)))
    + (if Fraction(paisa) == 0 then "" else " and " + subunit + " " + Text(Words(Fraction(paisa))))
    + " only"
  }

  /** Python's `s.replace("  ", " ")`. */
  function ReplaceDouble(s: string): (r: string)
    ensures |r| <= |s|
  {
    if |s| < 2 then s
    else if s[0] == ' ' && s[1] == ' ' then " " + ReplaceDouble(s[2..])
    else [s[0]] + ReplaceDouble(s[1..])
  }

  /** What is printed, read from the page: a number of rupees and one of paisa below a hundred,
      never of opposite signs, that make up the nearest amount in paisa, a tie going to the
      even one; the paisa are left out where there are none. */
  ghost predicate Prints(amount: real, currency: string, subunit: string, text: string) {
    exists w: int, f: int {:trigger Words(w), Words(f)} ::
      && -100 < f < 100 && !(w < 0 < f) && !(f < 0 < w)
      && var off := amount * 100.0 - (100 * w + f) as real;
      && -0.5 <= off <= 0.5 && (off == 0.5 || off == -0.5 ==> f % 2 == 0)
      && text == ReplaceDouble(currency + " " + Text(Words(w))
                               + (if f == 0 then "" else " and " + subunit + " " + Text(Words(f))) + " only")
  }

  lemma Parts(p: int)
    ensures var w, f := Whole(p), Fraction(p);
      && p == 100 * w + f && -100 < f < 100 && !(w < 0 < f) && !(f < 0 < w) && (p % 2 == 0 <==> f % 2 == 0)
  {
  }

  lemma PhraseIsPrinted(amount: real, currency: string, subunit: string)
    ensures Prints(amount, currency, subunit, ReplaceDouble(Phrase(Paisa(amount), currency, subunit)))
  {
    hide Text, Words, ReplaceDouble, Whole, Fraction, HalfEven;
    var p := Paisa(amount);
    var w, f := Whole(p), Fraction(p);
    Parts(p);
    var off := amount * 100.0 - (100 * w + f) as real;
    assert off == amount * 100.0 - p as real;
    assert Words(w) == Words(w) && Words(f) == Words(f);
  }

  method AmountToWords(amount: real, currency: string, subunit: string) returns (text: string)
    ensures text == ReplaceDouble(Phrase(Paisa(amount), currency, subunit))
    ensures Prints(amount, currency, subunit, text)
  {
    PhraseIsPrinted(amount, currency, subunit);
    var quantised := Paisa(amount);
    var whole := Whole(quantised);
    var fraction := quantised - 100 * whole;
    var t := NumberToWordsIndic(whole);
    var words := currency + " " + t;
    if fraction != 0 {
      var u := NumberToWordsIndic(fraction);
      words := words + (" and " + subunit + " " + u);
    }
    text := ReplaceDouble(words + " only");
    assert words + " only" == Phrase(quantised, currency, subunit);
  }

  function Spaces(n: nat): (r: string)
    ensures |r| == n && forall i | 0 <= i < n :: r[i] == ' '
  {
    seq(n, _ => ' ')
  }

  /** The replacement halves every run of spaces, rounding up, and keeps all else. */
  lemma {:induction false} ReplaceHalvesRuns(n: nat, rest: string)
    requires rest == "" || rest[0] != ' '
    ensures ReplaceDouble(Spaces(n) + rest) == Spaces((n + 1) / 2) + ReplaceDouble(rest)
    ensures rest != "" ==> ReplaceDouble(rest) == [rest[0]] + ReplaceDouble(rest[1..])
  {
    hide ReplaceDouble;
    if rest != "" { KeepsOther(rest); }
    if n == 0 {
      assert Spaces(0) + rest == rest && Spaces(0) + ReplaceDouble(rest) == ReplaceDouble(rest);
    } else if n == 1 {
      assert Spaces(1) == " ";
      LastSpace(rest);
    } else {
      assert Spaces(n) == "  " + Spaces(n - 2);
      assert Spaces(n) + rest == "  " + (Spaces(n - 2) + rest);
      TwoSpaces(Spaces(n - 2) + rest);
      ReplaceHalvesRuns(n - 2, rest);
      assert Spaces((n + 1) / 2) == " " + Spaces((n - 1) / 2);
      assert Spaces((n + 1) / 2) + ReplaceDouble(rest) == " " + (Spaces((n - 1) / 2) + ReplaceDouble(rest));
    }
  }

  lemma KeepsOther(s: string)
    requires s != "" && s[0] != ' '
    ensures ReplaceDouble(s) == [s[0]] + ReplaceDouble(s[1..])
  {
    if |s| == 1 { assert s == [s[0]] && s[1..] == ""; }
  }

  lemma TwoSpaces(s: string)
    ensures ReplaceDouble("  " + s) == " " + ReplaceDouble(s)
  {
    assert ("  " + s)[2..] == s;
  }

  lemma LastSpace(rest: string)
    requires rest == "" || rest[0] != ' '
    ensures ReplaceDouble(" " + rest) == " " + ReplaceDouble(rest)
  {
    assert (" " + rest)[1..] == rest;
    if rest == "" { assert " " + rest == " "; }
  }

  ghost predicate Doubled(s: string) {
    exists i :: 0 <= i < |s| - 1 && s[i] == ' ' && s[i + 1] == ' '
  }

  ghost predicate Opens(s: string) { s != "" && s[0] == ' ' }
  ghost predicate Ends(s: string) { s != "" && s[|s| - 1] == ' ' }

  lemma {:induction false} ReplaceIdle(s: string)
    ensures ReplaceDouble(s) == s <==> !Doubled(s)
    ensures Doubled(s) ==> |ReplaceDouble(s)| < |s|
  {
    if |s| >= 2 {
      if s[0] == ' ' && s[1] == ' ' {
        assert |ReplaceDouble(s)| <= 1 + |s[2..]|;
      } else {
        ReplaceIdle(s[1..]);
        assert s == [s[0]] + s[1..];
        if i :| 0 <= i < |s| - 1 && s[i] == ' ' && s[i + 1] == ' ' {
          assert s[1..][i - 1] == ' ' && s[1..][i - 1 + 1] == ' ';
        }
        if i :| 0 <= i < |s[1..]| - 1 && s[1..][i] == ' ' && s[1..][i + 1] == ' ' {
          assert s[i + 1] == ' ' && s[i + 1 + 1] == ' ';
        }
      }
    }
  }

  lemma DoubledAppend(a: string, b: string)
    ensures Doubled(a + b) <==> Doubled(a) || Doubled(b) || (Ends(a) && Opens(b))
  {
    var s := a + b;
    if i :| 0 <= i < |s| - 1 && s[i] == ' ' && s[i + 1] == ' ' {
      if i + 1 < |a| { assert a[i] == ' ' && a[i + 1] == ' '; }
      else if i >= |a| { assert b[i - |a|] == ' ' && b[i - |a| + 1] == ' '; }
    }
    if i :| 0 <= i < |a| - 1 && a[i] == ' ' && a[i + 1] == ' ' { assert s[i] == ' ' && s[i + 1] == ' '; }
    if i :| 0 <= i < |b| - 1 && b[i] == ' ' && b[i + 1] == ' ' {
      assert s[|a| + i] == ' ' && s[|a| + i + 1] == ' ';
    }
    if Ends(a) && Opens(b) { assert s[|a| - 1] == ' ' && s[|a| - 1 + 1] == ' '; }
  }

  /** Text that can sit between single spaces. */
  ghost predicate Clean(s: string) {
    s != "" && !Doubled(s) && !Opens(s) && !Ends(s)
  }

  lemma CleanPair(a: string, b: string)
    requires Clean(b)
    ensures var s := a + " " + b; Doubled(s) <==> Doubled(a) || Ends(a)
    ensures var s := a + " " + b; !Ends(s) && (Opens(s) <==> a == "" || Opens(a))
  {
    var space := " ";
    DoubledAppend(a, space);
    DoubledAppend(a + space, b);
    var s := a + space + b;
    assert s[|s| - 1] == b[|b| - 1];
    assert s[0] == if a == "" then ' ' else a[0];
  }

  lemma {:induction false} JoinIsClean(parts: seq<string>)
    requires parts != [] && forall p <- parts :: Token(p)
    ensures Clean(Join(parts))
  {
    assert Token(parts[0]);
    if |parts| > 1 {
      JoinIsClean(parts[1..]);
      CleanPair(parts[0], Join(parts[1..]));
    }
  }

  lemma TextIsClean(number: int)
    ensures Clean(Text(Words(number)))
  {
    ValueOfWords(number);
    SpelledAreTokens(Words(number));
    JoinIsClean(Spelled(Words(number)));
  }

  lemma TailDoubled(subunit: string, fraction: string)
    requires Clean(fraction)
    ensures var tail := " and " + subunit + " " + fraction;
      Opens(tail) && !Ends(tail) && (Doubled(tail) <==> !Clean(subunit))
  {
    var lead, and := " and " + subunit, " and ";
    CleanPair(lead, fraction);
    DoubledAppend(and, subunit);
    assert and[0] == ' ' && and[4] == ' ' && and[1] == 'a' && and[2] == 'n' && and[3] == 'd';
    assert !Doubled(and);
    assert lead[0] == ' ';
    assert Ends(lead) <==> subunit == "" || Ends(subunit);
  }

  /** The closing `.replace` changes a phrase exactly when a label is malformed. */
  lemma ReplaceChangesNothing(paisa: int, currency: string, subunit: string)
    ensures ReplaceDouble(Phrase(paisa, currency, subunit)) == Phrase(paisa, currency, subunit)
       <==> !Doubled(currency) && !Ends(currency) && (Fraction(paisa) == 0 || Clean(subunit))
  {
    var whole, fraction := Text(Words(Whole(paisa))), Text(Words(Fraction(paisa)));
    TextIsClean(Whole(paisa));
    TextIsClean(Fraction(paisa));
    var head, only := currency + " " + whole, " only";
    var tail := if Fraction(paisa) == 0 then "" else " and " + subunit + " " + fraction;
    CleanPair(currency, whole);
    TailDoubled(subunit, fraction);
    DoubledAppend(head, tail);
    assert head[|head| - 1] == whole[|whole| - 1];
    var body := head + tail;
    assert !Ends(body);
    assert only[0] == ' ' && only[1] == 'o' && only[2] == 'n' && only[3] == 'l' && only[4] == 'y';
    assert !Doubled(only);
    DoubledAppend(body, only);
    ReplaceIdle(body + only);
    assert Phrase(paisa, currency, subunit) == body + only;
  }

  /** Labels under which the printed amount can be read back. */
  ghost predicate Labels(currency: string, subunit: string) {
    !Doubled(currency) && !Ends(currency) && Token(subunit) && !IsWord(subunit)
  }

  lemma DefaultLabelsFit()
    ensures Labels("Rupees", "Paisa")
  {
    if IsWord("Paisa") {
      var w :| Spell(w) == "Paisa";
      SpellSignature(w);
    }
    var r := "Rupees";
    assert r[0] != ' ' && r[1] != ' ' && r[2] != ' ' && r[3] != ' ' && r[4] != ' ' && r[5] != ' ';
  }

  ghost function Tokens(paisa: int, subunit: string): seq<string> {
    Spelled(Words(Whole(paisa)))
    + (if Fraction(paisa) == 0 then [] else ["and", subunit] + Spelled(Words(Fraction(paisa))))
    + ["only"]
  }

  lemma GlueWhole(currency: string, whole: string)
    ensures currency + " " + whole + "" + " only" == currency + " " + (whole + " " + "only")
  {
    assert " " + "only" == " only";
  }

  lemma GlueBoth(currency: string, whole: string, subunit: string, fraction: string)
    ensures currency + " " + whole + (" and " + subunit + " " + fraction) + " only"
         == currency + " " + (whole + " " + ("and" + " " + subunit + " " + fraction) + " " + "only")
  {
    assert " " + "only" == " only";
    assert " " + "and" + " " == " and ";
    var rest := subunit + " " + fraction;
    assert " and " + subunit + " " + fraction == " and " + rest;
    assert "and" + " " + subunit + " " + fraction == "and" + " " + rest;
    assert " " + ("and" + " " + rest) == " and " + rest;
  }

  lemma PhraseTokens(paisa: int, currency: string, subunit: string)
    requires Token(subunit)
    ensures Phrase(paisa, currency, subunit) == currency + " " + Join(Tokens(paisa, subunit))
    ensures Cut(Join(Tokens(paisa, subunit))) == Tokens(paisa, subunit)
  {
    var a, f := Spelled(Words(Whole(paisa))), Spelled(Words(Fraction(paisa)));
    TextIsClean(Whole(paisa));
    TextIsClean(Fraction(paisa));
    SpelledAreTokens(Words(Whole(paisa)));
    SpelledAreTokens(Words(Fraction(paisa)));
    CutJoin(Tokens(paisa, subunit));
    if Fraction(paisa) == 0 {
      JoinAppend(a, ["only"]);
      assert Tokens(paisa, subunit) == a + ["only"];
      GlueWhole(currency, Join(a));
    } else {
      var marker := ["and", subunit];
      JoinAppend(marker, f);
      assert marker[1..] == [subunit];
      JoinAppend(a, marker + f);
      JoinAppend(a + (marker + f), ["only"]);
      GlueBoth(currency, Join(a), subunit, Join(f));
    }
  }

  lemma Pieces(a: seq<string>, f: seq<string>, subunit: string)
    ensures var s := a + ["and", subunit] + f + ["only"];
      && |s| == |a| + |f| + 3 && s[..|a|] == a && s[|a|] == "and" && s[|a| + 1] == subunit
      && s[|a| + 2..|s| - 1] == f
  {
  }

  lemma NoMarker(ws: seq<Word>, subunit: string)
    requires !IsWord(subunit)
    ensures forall i | 0 <= i < |ws| :: Spelled(ws)[i] != subunit
    ensures subunit != Spell(And)
  {
    forall i | 0 <= i < |ws| ensures Spelled(ws)[i] != subunit {
      assert Spelled(ws)[i] == Spell(ws[i]);
    }
  }

  /** Where the spelled whole part stops. */
  lemma WholeTokens(paisa: int, subunit: string)
    requires !IsWord(subunit)
    ensures var a, s := Spelled(Words(Whole(paisa))), Tokens(paisa, subunit);
      && |s| > |a| && s[..|a|] == a && subunit != "and"
      && (forall i | 0 <= i < |a| :: s[i] != subunit)
      && if Fraction(paisa) == 0 then |s| == |a| + 1
         else && |s| > |a| + 2 && s[|a|] == "and" && s[|a| + 1] == subunit
              && s[|a| + 2..|s| - 1] == Spelled(Words(Fraction(paisa)))
  {
    assert Spell(And) == "and";
    hide Words, Whole, Fraction, Spell, Spelled;
    var a, f := Spelled(Words(Whole(paisa))), Spelled(Words(Fraction(paisa)));
    NoMarker(Words(Whole(paisa)), subunit);
    Marked(a, f, subunit);
    if Fraction(paisa) != 0 {
      SomethingSpelled(Fraction(paisa));
      Pieces(a, f, subunit);
    }
  }

  /** The spelled whole part stays where it is, whatever follows. */
  lemma Marked(a: seq<string>, f: seq<string>, subunit: string)
    ensures var s, t := a + [] + ["only"], a + (["and", subunit] + f) + ["only"];
      && |s| == |a| + 1 && s[..|a|] == a && t == a + ["and", subunit] + f + ["only"]
  {
  }

  lemma SomethingSpelled(n: int)
    ensures Spelled(Words(n)) != []
  {
    TextIsClean(n);
  }

  /** Before the fraction's marker every token is a word, so the marker is found. */
  lemma TokensInjective(p: int, q: int, subunit: string)
    requires !IsWord(subunit)
    requires Tokens(p, subunit) == Tokens(q, subunit)
    ensures p == q
  {
    WholeTokens(p, subunit);
    WholeTokens(q, subunit);
    var n, m := |Spelled(Words(Whole(p)))|, |Spelled(Words(Whole(q)))|;
    MarkerClash(Tokens(p, subunit), n, m, subunit);
    SpelledInjective(Words(Whole(p)), Words(Whole(q)));
    ValueOfWords(Whole(p));
    ValueOfWords(Whole(q));
    if Fraction(p) != 0 {
      SpelledInjective(Words(Fraction(p)), Words(Fraction(q)));
      ValueOfWords(Fraction(p));
      ValueOfWords(Fraction(q));
    }
  }

  lemma MarkerClash(s: seq<string>, n: nat, m: nat, subunit: string)
    requires subunit != "and" && n < |s| && m < |s|
    requires forall i | 0 <= i < n :: s[i] != subunit
    requires forall i | 0 <= i < m :: s[i] != subunit
    requires |s| == n + 1 || (|s| > n + 2 && s[n] == "and" && s[n + 1] == subunit)
    requires |s| == m + 1 || (|s| > m + 2 && s[m] == "and" && s[m + 1] == subunit)
    ensures n == m
  {
  }

  /** Two amounts print alike exactly when they round to the same paisa. */
  lemma AmountTextInjective(a: real, b: real, currency: string, subunit: string)
    requires Labels(currency, subunit)
    ensures ReplaceDouble(Phrase(Paisa(a), currency, subunit)) == ReplaceDouble(Phrase(Paisa(b), currency, subunit))
       <==> Paisa(a) == Paisa(b)
  {
    var p, q := Paisa(a), Paisa(b);
    TokenIsClean(subunit);
    ReplaceChangesNothing(p, currency, subunit);
    ReplaceChangesNothing(q, currency, subunit);
    PhraseTokens(p, currency, subunit);
    PhraseTokens(q, currency, subunit);
    var x, y := Join(Tokens(p, subunit)), Join(Tokens(q, subunit));
    if currency + " " + x == currency + " " + y {
      assert (currency + " " + x)[|currency| + 1..] == x;
      assert (currency + " " + y)[|currency| + 1..] == y;
      TokensInjective(p, q, subunit);
    }
  }

  lemma TokenIsClean(s: string)
    requires Token(s)
    ensures Clean(s)
  {
  }
}
