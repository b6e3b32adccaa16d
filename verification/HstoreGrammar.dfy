/** Which texts parse_hstore takes (contrib/hstore/hstore_io.c:37-258), what it makes of them and
    where it stops in all others: a grammar of hstore texts that mentions neither of the two
    state machines, and that the parser decides exactly that grammar.
 */
module HstoreGrammar {
  import opened Hstores
  import opened HstoreText

  // ---- The grammar ----

  /** A character that stands for itself, or one behind a backslash. */
  datatype Unit = Plain(c: char) | Escaped(c: char)

  datatype Word = Quoted(units: seq<Unit>) | Bare(units: seq<Unit>)

  /** A key, an arrow and a value, with white space around the key and around the value. */
  datatype Item = Item(before: string, key: Word, mid: string, gap: string, val: Word, after: string)

  /** Items with commas between them. A list may be blank, so a comma may end the text. */
  datatype List = Blank(space: string) | Last(item: Item) | Then(item: Item, rest: List)

  datatype Place = InQuotes | InKey | InValue

  /** The characters that end a word: the quote, or what follows a bare word. */
  predicate Ends(place: Place, c: char) {
    match place
    case InQuotes => c == '"'
    case InKey => c == '=' || IsSpace(c)
    case InValue => c == ',' || IsSpace(c)
  }

  function UnitText(x: Unit): (s: string)
    ensures s != ""
  {
    match x
    case Plain(c) => [c]
    case Escaped(c) => ['\\', c]
  }

  function UnitsText(us: seq<Unit>): string {
    if us == [] then "" else UnitText(us[0]) + UnitsText(us[1..])
  }

  function WordText(w: Word): string {
    match w
    case Quoted(us) => "\"" + UnitsText(us) + "\""
    case Bare(us) => UnitsText(us)
  }

  function ItemText(i: Item): string {
    i.before + WordText(i.key) + i.mid + "=>" + i.gap + WordText(i.val) + i.after
  }

  function ListText(l: List): string {
    match l
    case Blank(space) => space
    case Last(i) => ItemText(i)
    case Then(i, rest) => ItemText(i) + "," + ListText(rest)
  }

  /** Within a word a character stands for itself unless it is a backslash or ends the word. */
  predicate Inside(place: Place, us: seq<Unit>) {
    forall i :: 0 <= i < |us| && us[i].Plain? ==> us[i].c != '\\' && !Ends(place, us[i].c)
  }

  /** A bare word does not start with a quote or white space, and a key not with an equals sign.
      A value may start with a comma. */
  predicate Starts(place: Place, x: Unit) {
    x.Plain? ==> x.c != '"' && x.c != '\\' && !IsSpace(x.c) && (place == InKey ==> x.c != '=')
  }

  predicate ProperWord(place: Place, w: Word) {
    match w
    case Quoted(us) => Inside(InQuotes, us)
    case Bare(us) => |us| > 0 && Starts(place, us[0]) && Inside(place, us[1..])
  }

  predicate White(space: string) {
    forall i :: 0 <= i < |space| ==> IsSpace(space[i])
  }

  predicate ProperItem(i: Item) {
    && White(i.before) && ProperWord(InKey, i.key) && White(i.mid)
    && White(i.gap) && ProperWord(InValue, i.val) && White(i.after)
  }

  predicate ProperList(l: List) {
    match l
    case Blank(space) => White(space)
    case Last(i) => ProperItem(i)
    case Then(i, rest) => ProperItem(i) && ProperList(rest)
  }

  /** The characters of a word without quotes and backslashes. */
  function Content(us: seq<Unit>): (s: string)
    ensures |s| == |us|
  {
    seq(|us|, i requires 0 <= i < |us| => us[i].c)
  }

  function Lower(c: char): char {
    if 'A' <= c <= 'Z' then (c as int + 32) as char else c
  }

  function Lowered(s: string): (r: string)
    ensures |r| == |s|
  {
    seq(|s|, i requires 0 <= i < |s| => Lower(s[i]))
  }

  /** Both words in full, their lengths modulo 2^16, and null for a bare word that spells it in
      letters of any case, with or without backslashes. */
  function ItemPair(i: Item): RawPair {
    var (key, val) := (Content(i.key.units), Content(i.val.units));
    ModLess(|key|);
    ModLess(|val|);
    Raw(key, val, |key| % 0x1_0000, |val| % 0x1_0000, i.val.Bare? && Lowered(val) == "null", true)
  }

  function Meaning(l: List): seq<RawPair> {
    match l
    case Blank(_) => []
    case Last(i) => [ItemPair(i)]
    case Then(i, rest) => [ItemPair(i)] + Meaning(rest)
  }

  /** The list l is a reading of the text s. */
  ghost predicate Reading(l: List, s: string) {
    ProperList(l) && ListText(l) == s
  }

  ghost predicate IsHstoreText(s: string) {
    exists l :: Reading(l, s)
  }

  lemma NullWord(w: string)
    ensures IsNullWord(w) <==> Lowered(w) == "null"
  {
    var l := Lowered(w);
    if |w| == 4 {
      assert w[0] in "nN" <==> l[0] == 'n';
      assert w[1] in "uU" <==> l[1] == 'u';
      assert w[2] in "lL" <==> l[2] == 'l';
      assert w[3] in "lL" <==> l[3] == 'l';
      assert IsNullWord(w) ==> l == "null";
    }
  }

  lemma PairCollected(i: Item)
    ensures ItemPair(i) == Collect(Content(i.key.units), Content(i.val.units), i.val.Quoted?)
  {
    hide IsNullWord, Content, Lowered;
    NullWord(Content(i.val.units));
  }

  // ---- Both state machines in one, a character at a time ----

  datatype Slot = ForKey | ForVal(key: string)

  datatype Phase = InWord(slot: Slot, st: ValState, word: string, quoted: bool)
                 | BeforeEq(key: string)
                 | BeforeGt(key: string)
                 | Between

  /** The pairs collected and where the parser stands. */
  datatype Config = Config(done: seq<RawPair>, phase: Phase)

  function PlaceOf(slot: Slot): Place {
    if slot.ForKey? then InKey else InValue
  }

  function AtWord(done: seq<RawPair>, slot: Slot): Config {
    Config(done, InWord(slot, WaitVal, "", false))
  }

  /** Behind a word. */
  function Ended(done: seq<RawPair>, slot: Slot, word: string, quoted: bool): Config {
    match slot
    case ForKey => Config(done, BeforeEq(word))
    case ForVal(key) => Config(done + [Collect(key, word, quoted)], Between)
  }

  function StepWord(done: seq<RawPair>, slot: Slot, st: ValState, word: string, quoted: bool, x: char)
    : Option<Config>
  {
    match st
    case WaitVal =>
      if x == '"' then Some(Config(done, InWord(slot, InEscVal, word, true)))
      else if x == '=' && slot.ForKey? then None
      else if x == '\\' then Some(Config(done, InWord(slot, WaitEscIn, word, quoted)))
      else if IsSpace(x) then Some(Config(done, InWord(slot, WaitVal, word, quoted)))
      else Some(Config(done, InWord(slot, InVal, word + [x], quoted)))
    case InVal =>
      if x == '\\' then Some(Config(done, InWord(slot, WaitEscIn, word, quoted)))
      else if Ends(PlaceOf(slot), x) then StepBetween(Ended(done, slot, word, quoted), x)
      else Some(Config(done, InWord(slot, InVal, word + [x], quoted)))
    case InEscVal =>
      if x == '\\' then Some(Config(done, InWord(slot, WaitEscEscIn, word, quoted)))
      else if x == '"' then Some(Ended(done, slot, word, quoted))
      else Some(Config(done, InWord(slot, InEscVal, word + [x], quoted)))
    case WaitEscIn => Some(Config(done, InWord(slot, InVal, word + [x], quoted)))
    case WaitEscEscIn => Some(Config(done, InWord(slot, InEscVal, word + [x], quoted)))
  }

  /** Outside words. */
  function StepBetween(c: Config, x: char): Option<Config>
    requires !c.phase.InWord?
  {
    match c.phase
    case BeforeEq(key) =>
      if x == '=' then Some(Config(c.done, BeforeGt(key))) else if IsSpace(x) then Some(c) else None
    case BeforeGt(key) =>
      if x == '>' then Some(AtWord(c.done, ForVal(key))) else None
    case Between =>
      if x == ',' then Some(AtWord(c.done, ForKey)) else if IsSpace(x) then Some(c) else None
  }

  function Step(c: Config, x: char): Option<Config> {
    match c.phase
    case InWord(slot, st, word, quoted) => StepWord(c.done, slot, st, word, quoted, x)
    case _ => StepBetween(c, x)
  }

  function Finish(c: Config): Result<seq<RawPair>> {
    match c.phase
    case InWord(ForKey, WaitVal, _, _) => Ok(c.done)
    case InWord(ForVal(key), InVal, word, quoted) => Ok(c.done + [Collect(key, word, quoted)])
    case Between => Ok(c.done)
    case _ => Err(UnexpectedEnd)
  }

  /** The rest u of a text, p being the position of its first character. */
  function Run(c: Config, u: string, p: nat): Result<seq<RawPair>>
    decreases |u|
  {
    if u == "" then Finish(c)
    else match Step(c, u[0])
         case None => Err(SyntaxNear(u[0], p))
         case Some(d) => Run(d, u[1..], p + 1)
  }

  /** How parse_hstore goes on after get_val. */
  function AfterScan(s: string, slot: Slot, r: ValResult, done: seq<RawPair>): Result<seq<RawPair>>
    requires r.Got? ==> r.at < |s|
  {
    match r
    case NoVal => if slot.ForKey? then Ok(done) else Err(UnexpectedEnd)
    case Failed(e) => Err(e)
    case Got(word, quoted, at) => Run(Ended(done, slot, word, quoted), s[at + 1..], at + 1)
  }

  lemma EndRun(s: string, slot: Slot, st: ValState, word: string, quoted: bool, done: seq<RawPair>)
    requires NulFree(s) && (st == InVal ==> s != "")
    ensures var r := Scan(s, |s|, slot.ForVal?, st, word, quoted);
            && (r.Got? ==> r.at < |s|)
            && Run(Config(done, InWord(slot, st, word, quoted)), "", |s|) == AfterScan(s, slot, r, done)
  {
    hide Collect;
    assert s[|s|..] == "";
  }

  /** One character for get_val and for the two machines in one. */
  lemma StepScan(s: string, p: nat, slot: Slot, st: ValState, word: string, quoted: bool, done: seq<RawPair>)
    requires p < |s| && NulFree(s) && (st == InVal ==> p > 0)
    ensures var r := Scan(s, p, slot.ForVal?, st, word, quoted);
            match StepWord(done, slot, st, word, quoted, s[p])
            case None => r == Failed(SyntaxNear(s[p], p))
            case Some(Config(_, InWord(_, st1, word1, quoted1))) =>
              if st == InVal && Ends(PlaceOf(slot), s[p]) then r == Got(word, quoted, p - 1)
              else r == Scan(s, p + 1, slot.ForVal?, st1, word1, quoted1)
            case Some(_) =>
              r == Got(word, quoted, if st == InVal && !IsSpace(s[p]) then p - 1 else p)
  {
    hide Collect;
  }

  lemma {:induction false} ScanRun(s: string, p: nat, slot: Slot, st: ValState, word: string, quoted: bool,
                                   done: seq<RawPair>)
    requires p <= |s| && NulFree(s) && (st == InVal ==> p > 0)
    ensures var r := Scan(s, p, slot.ForVal?, st, word, quoted);
            && (r.Got? ==> r.at < |s|)
            && Run(Config(done, InWord(slot, st, word, quoted)), s[p..], p) == AfterScan(s, slot, r, done)
    decreases |s| - p
  {
    hide Collect, Scan, Finish;
    if p == |s| {
      assert s[p..] == "";
      EndRun(s, slot, st, word, quoted, done);
    } else {
      StepScan(s, p, slot, st, word, quoted, done);
      assert s[p..][0] == s[p] && s[p..][1..] == s[p + 1..];
      match StepWord(done, slot, st, word, quoted, s[p]) {
        case Some(d) =>
          if d.phase.InWord? && d.phase.slot == slot {
            ScanRun(s, p + 1, slot, d.phase.st, d.phase.word, d.phase.quoted, done);
          }
        case None =>
      }
    }
  }

  function PhaseOf(st: ParseState, key: string): Phase {
    match st
    case WKey => InWord(ForKey, WaitVal, "", false)
    case WEq => BeforeEq(key)
    case WGt => BeforeGt(key)
    case WVal => InWord(ForVal(key), WaitVal, "", false)
    case WDel => Between
  }

  lemma {:induction false} ParseRun(s: string, p: nat, st: ParseState, key: string, done: seq<RawPair>)
    requires p <= |s| && NulFree(s)
    ensures ParseFrom(s, p, st, key, done) == Run(Config(done, PhaseOf(st, key)), s[p..], p)
    decreases |s| - p
  {
    hide Collect, Scan;
    ScanAdvances(s, p, st == WVal, WaitVal, "", false);
    var r := Scan(s, p, st == WVal, WaitVal, "", false);
    if st == WKey || st == WVal {
      var slot := if st == WKey then ForKey else ForVal(key);
      ScanRun(s, p, slot, WaitVal, "", false, done);
      if r.Got? {
        var d := Ended(done, slot, r.word, r.escaped);
        ParseRun(s, r.at + 1, if st == WKey then WEq else WDel, if st == WKey then r.word else key, d.done);
      }
    } else if p < |s| {
      assert s[p..][0] == s[p] && s[p..][1..] == s[p + 1..];
      match StepBetween(Config(done, PhaseOf(st, key)), s[p]) {
        case Some(d) =>
          var next := if st == WEq && s[p] == '=' then WGt else if st == WGt then WVal
                      else if st == WDel && s[p] == ',' then WKey else st;
          ParseRun(s, p + 1, next, key, done);
        case None =>
      }
    }
  }

  lemma ParseIsRun(s: string)
    requires NulFree(s)
    ensures Parse(s) == Run(AtWord([], ForKey), s, 0)
  {
    ParseRun(s, 0, WKey, "", []);
    assert s[0..] == s;
  }

  // ---- Every list of the grammar is read as what it means ----

  lemma {:induction false} SpaceRun(c: Config, space: string, v: string, p: nat)
    requires White(space)
    requires !c.phase.BeforeGt? && (c.phase.InWord? ==> c.phase.st == WaitVal)
    ensures Run(c, space + v, p) == Run(c, v, p + |space|)
  {
    hide Finish, Ended;
    if space == "" {
      assert space + v == v;
    } else {
      assert (space + v)[1..] == space[1..] + v;
      SpaceRun(c, space[1..], v, p + 1);
    }
  }

  /** One unit of a word in the state that the units before it lead to. */
  lemma UnitRun(done: seq<RawPair>, slot: Slot, st: ValState, w: string, quoted: bool, x: Unit, v: string, p: nat)
    requires st == InVal || st == InEscVal
    requires Inside(if st == InVal then PlaceOf(slot) else InQuotes, [x])
    ensures Run(Config(done, InWord(slot, st, w, quoted)), UnitText(x) + v, p)
         == Run(Config(done, InWord(slot, st, w + [x.c], quoted)), v, p + |UnitText(x)|)
  {
    hide Finish, Ended, StepBetween;
    var u := UnitText(x) + v;
    assert [x][0] == x;
    match x {
      case Plain(c) =>
        assert u[0] == c && u[1..] == v;
      case Escaped(c) =>
        assert u[0] == '\\' && u[1..][0] == c && u[1..][1..] == v;
    }
  }

  lemma {:induction false} UnitsRun(done: seq<RawPair>, slot: Slot, st: ValState, w: string, quoted: bool,
                                    us: seq<Unit>, v: string, p: nat)
    requires st == InVal || st == InEscVal
    requires Inside(if st == InVal then PlaceOf(slot) else InQuotes, us)
    ensures Run(Config(done, InWord(slot, st, w, quoted)), UnitsText(us) + v, p)
         == Run(Config(done, InWord(slot, st, w + Content(us), quoted)), v, p + |UnitsText(us)|)
    decreases |us|
  {
    hide Run, UnitText, Ends;
    if us == [] {
      assert "" + v == v && w + Content(us) == w;
    } else {
      var x := us[0];
      assert UnitsText(us) + v == UnitText(x) + (UnitsText(us[1..]) + v);
      UnitRun(done, slot, st, w, quoted, x, UnitsText(us[1..]) + v, p);
      UnitsRun(done, slot, st, w + [x.c], quoted, us[1..], v, p + |UnitText(x)|);
      assert (w + [x.c]) + Content(us[1..]) == w + Content(us);
    }
  }

  /** A bare word ends at the end of the text or before a character that ends it. */
  predicate Delimited(place: Place, w: Word, v: string) {
    w.Bare? ==> v == "" || Ends(place, v[0])
  }

  lemma BareEnds(done: seq<RawPair>, slot: Slot, word: string, quoted: bool, v: string, p: nat)
    requires v == "" || Ends(PlaceOf(slot), v[0])
    ensures Run(Config(done, InWord(slot, InVal, word, quoted)), v, p) == Run(Ended(done, slot, word, quoted), v, p)
  {
    hide Collect;
  }

  lemma BareStarts(done: seq<RawPair>, slot: Slot, x: Unit, v: string, p: nat)
    requires Starts(PlaceOf(slot), x)
    ensures Run(AtWord(done, slot), UnitText(x) + v, p)
         == Run(Config(done, InWord(slot, InVal, [x.c], false)), v, p + |UnitText(x)|)
  {
    hide Finish, Ended, StepBetween;
    var u := UnitText(x) + v;
    match x {
      case Plain(c) =>
        assert u[0] == c && u[1..] == v && "" + [c] == [c];
      case Escaped(c) =>
        assert u[0] == '\\' && u[1..][0] == c && u[1..][1..] == v && "" + [c] == [c];
    }
  }

  lemma BareRun(done: seq<RawPair>, slot: Slot, us: seq<Unit>, v: string, p: nat)
    requires ProperWord(PlaceOf(slot), Bare(us)) && Delimited(PlaceOf(slot), Bare(us), v)
    ensures Run(AtWord(done, slot), UnitsText(us) + v, p)
         == Run(Ended(done, slot, Content(us), false), v, p + |UnitsText(us)|)
  {
    hide Run, UnitText, Ends, Starts, Ended, AtWord;
    var x, rest := us[0], us[1..];
    assert UnitsText(us) + v == UnitText(x) + (UnitsText(rest) + v);
    BareStarts(done, slot, x, UnitsText(rest) + v, p);
    UnitsRun(done, slot, InVal, [x.c], false, rest, v, p + |UnitText(x)|);
    assert [x.c] + Content(rest) == Content(us);
    BareEnds(done, slot, Content(us), false, v, p + |UnitsText(us)|);
  }

  lemma QuoteRun(done: seq<RawPair>, slot: Slot, w: string, v: string, p: nat)
    ensures Run(AtWord(done, slot), "\"" + v, p) == Run(Config(done, InWord(slot, InEscVal, "", true)), v, p + 1)
    ensures Run(Config(done, InWord(slot, InEscVal, w, true)), "\"" + v, p) == Run(Ended(done, slot, w, true), v, p + 1)
  {
    hide Finish, Ended, StepBetween;
    assert ("\"" + v)[1..] == v;
  }

  lemma QuotedRun(done: seq<RawPair>, slot: Slot, us: seq<Unit>, v: string, p: nat)
    requires Inside(InQuotes, us)
    ensures Run(AtWord(done, slot), WordText(Quoted(us)) + v, p)
         == Run(Ended(done, slot, Content(us), true), v, p + |WordText(Quoted(us))|)
  {
    hide Run, UnitsText, Inside, Ended, AtWord;
    var t := UnitsText(us);
    assert WordText(Quoted(us)) + v == "\"" + (t + ("\"" + v));
    QuoteRun(done, slot, "", t + ("\"" + v), p);
    UnitsRun(done, slot, InEscVal, "", true, us, "\"" + v, p + 1);
    assert "" + Content(us) == Content(us);
    QuoteRun(done, slot, Content(us), v, p + 1 + |t|);
  }

  /** A word, quoted or bare, is read as its characters. */
  lemma WordRun(done: seq<RawPair>, slot: Slot, w: Word, v: string, p: nat)
    requires ProperWord(PlaceOf(slot), w) && Delimited(PlaceOf(slot), w, v)
    ensures Run(AtWord(done, slot), WordText(w) + v, p)
         == Run(Ended(done, slot, Content(w.units), w.Quoted?), v, p + |WordText(w)|)
  {
    hide Run, Ended, AtWord;
    match w
    case Quoted(us) => QuotedRun(done, slot, us, v, p);
    case Bare(us) => BareRun(done, slot, us, v, p);
  }

  lemma ArrowRun(done: seq<RawPair>, key: string, v: string, p: nat)
    ensures Run(Config(done, BeforeEq(key)), "=>" + v, p) == Run(AtWord(done, ForVal(key)), v, p + 2)
  {
    var u := "=>" + v;
    assert u[0] == '=' && u[1..][0] == '>' && u[1..][1..] == v;
  }

  lemma CommaRun(done: seq<RawPair>, v: string, p: nat)
    ensures Run(Config(done, Between), "," + v, p) == Run(AtWord(done, ForKey), v, p + 1)
  {
    assert ("," + v)[1..] == v;
  }

  /** White space or what follows it delimits a word before it. */
  lemma SpaceDelimits(place: Place, w: Word, space: string, v: string)
    requires White(space) && Delimited(place, w, v) && place != InQuotes
    ensures Delimited(place, w, space + v)
  {
    if space == "" {
      assert space + v == v;
    } else {
      assert (space + v)[0] == space[0];
    }
  }

  ghost function KeyText(i: Item): string {
    i.before + WordText(i.key) + i.mid + "=>"
  }

  ghost function ValText(i: Item): string {
    i.gap + WordText(i.val) + i.after
  }

  lemma KeyRun(done: seq<RawPair>, i: Item, v: string, p: nat)
    requires ProperItem(i)
    ensures Run(AtWord(done, ForKey), KeyText(i) + v, p)
         == Run(AtWord(done, ForVal(Content(i.key.units))), v, p + |KeyText(i)|)
  {
    hide Run, WordText, Content, White, ProperWord;
    var (t, k) := (WordText(i.key), Content(i.key.units));
    var arrow := "=>" + v;
    assert KeyText(i) + v == i.before + (t + (i.mid + arrow));
    SpaceRun(AtWord(done, ForKey), i.before, t + (i.mid + arrow), p);
    SpaceDelimits(InKey, i.key, i.mid, arrow);
    WordRun(done, ForKey, i.key, i.mid + arrow, p + |i.before|);
    SpaceRun(Config(done, BeforeEq(k)), i.mid, arrow, p + |i.before| + |t|);
    ArrowRun(done, k, v, p + |i.before| + |t| + |i.mid|);
  }

  lemma ValRun(done: seq<RawPair>, key: string, i: Item, v: string, p: nat)
    requires ProperItem(i) && (v == "" || v[0] == ',')
    ensures Run(AtWord(done, ForVal(key)), ValText(i) + v, p)
         == Run(Config(done + [Collect(key, Content(i.val.units), i.val.Quoted?)], Between), v, p + |ValText(i)|)
  {
    hide Run, WordText, Content, White, ProperWord, Collect;
    var t := WordText(i.val);
    assert ValText(i) + v == i.gap + (t + (i.after + v));
    SpaceRun(AtWord(done, ForVal(key)), i.gap, t + (i.after + v), p);
    SpaceDelimits(InValue, i.val, i.after, v);
    WordRun(done, ForVal(key), i.val, i.after + v, p + |i.gap|);
    SpaceRun(Ended(done, ForVal(key), Content(i.val.units), i.val.Quoted?), i.after, v, p + |i.gap| + |t|);
  }

  lemma ItemRun(done: seq<RawPair>, i: Item, v: string, p: nat)
    requires ProperItem(i) && (v == "" || v[0] == ',')
    ensures Run(AtWord(done, ForKey), ItemText(i) + v, p)
         == Run(Config(done + [ItemPair(i)], Between), v, p + |ItemText(i)|)
  {
    hide Run, WordText, Content, ProperItem, Collect, ItemPair, AtWord;
    var k := KeyText(i);
    assert ItemText(i) == k + ValText(i);
    assert ItemText(i) + v == k + (ValText(i) + v);
    KeyRun(done, i, ValText(i) + v, p);
    ValRun(done, Content(i.key.units), i, v, p + |k|);
    PairCollected(i);
  }

  lemma {:induction false} ListRun(done: seq<RawPair>, l: List, p: nat)
    requires ProperList(l)
    ensures Run(AtWord(done, ForKey), ListText(l), p) == Ok(done + Meaning(l))
    decreases l
  {
    hide ItemText, ProperItem, ItemPair;
    match l
    case Blank(space) =>
      SpaceRun(AtWord(done, ForKey), space, "", p);
      assert space + "" == space && done + Meaning(l) == done;
    case Last(i) =>
      ItemRun(done, i, "", p);
      assert ItemText(i) + "" == ItemText(i);
    case Then(i, rest) =>
      var v := "," + ListText(rest);
      assert ListText(l) == ItemText(i) + v;
      ItemRun(done, i, v, p);
      CommaRun(done + [ItemPair(i)], ListText(rest), p + |ItemText(i)|);
      ListRun(done + [ItemPair(i)], rest, p + |ItemText(i)| + 1);
      assert (done + [ItemPair(i)]) + Meaning(rest) == done + Meaning(l);
  }

  // ---- The same told of get_val ----

  /** The rest of s from p on is a text with v behind it. */
  ghost predicate Reads(s: string, p: nat, text: string, v: string) {
    p <= |s| && NulFree(s) && s[p..] == text + v
  }

  lemma ReadsSplit(s: string, p: nat, a: string, b: string, v: string)
    requires Reads(s, p, a + b, v)
    ensures Reads(s, p, a, b + v) && Reads(s, p + |a|, b, v)
  {
    assert (a + b) + v == a + (b + v);
    assert s[p + |a|..] == s[p..][|a|..];
  }

  lemma ReadsEnd(s: string, p: nat, text: string, v: string)
    requires Reads(s, p, text, v)
    ensures Reads(s, p + |text|, "", v)
  {
    assert s[p + |text|..] == s[p..][|text|..];
    assert "" + v == v;
  }

  lemma ReadsChar(s: string, p: nat, text: string, v: string)
    requires Reads(s, p, text, v) && text != ""
    ensures p < |s| && s[p] == text[0] != '\0'
  {
    assert s[p] == s[p..][0];
  }

  lemma {:induction false} SpaceScan(s: string, p: nat, ignoreeq: bool, space: string, v: string)
    requires White(space) && Reads(s, p, space, v)
    ensures Scan(s, p, ignoreeq, WaitVal, "", false) == Scan(s, p + |space|, ignoreeq, WaitVal, "", false)
    decreases |space|
  {
    if space != "" {
      ReadsChar(s, p, space, v);
      assert [space[0]] + space[1..] == space;
      ReadsSplit(s, p, [space[0]], space[1..], v);
      SpaceScan(s, p + 1, ignoreeq, space[1..], v);
    }
  }

  lemma UnitScan(s: string, p: nat, ignoreeq: bool, st: ValState, w: string, quoted: bool, x: Unit, v: string)
    requires (st == InVal && p > 0) || st == InEscVal
    requires Inside(if st == InEscVal then InQuotes else if ignoreeq then InValue else InKey, [x])
    requires Reads(s, p, UnitText(x), v)
    ensures Scan(s, p, ignoreeq, st, w, quoted) == Scan(s, p + |UnitText(x)|, ignoreeq, st, w + [x.c], quoted)
  {
    assert [x][0] == x;
    ReadsChar(s, p, UnitText(x), v);
    if x.Escaped? {
      assert UnitText(x) == ['\\'] + [x.c];
      ReadsSplit(s, p, ['\\'], [x.c], v);
      ReadsChar(s, p + 1, [x.c], v);
    }
  }

  lemma {:induction false} UnitsScan(s: string, p: nat, ignoreeq: bool, st: ValState, w: string, quoted: bool,
                                     us: seq<Unit>, v: string)
    requires (st == InVal && p > 0) || st == InEscVal
    requires Inside(if st == InEscVal then InQuotes else if ignoreeq then InValue else InKey, us)
    requires Reads(s, p, UnitsText(us), v)
    ensures Scan(s, p, ignoreeq, st, w, quoted)
         == Scan(s, p + |UnitsText(us)|, ignoreeq, st, w + Content(us), quoted)
    decreases |us|
  {
    hide Scan, UnitText, Ends, Reads;
    if us == [] {
      assert w + Content(us) == w;
    } else {
      var x := us[0];
      ReadsSplit(s, p, UnitText(x), UnitsText(us[1..]), v);
      UnitScan(s, p, ignoreeq, st, w, quoted, x, UnitsText(us[1..]) + v);
      UnitsScan(s, p + |UnitText(x)|, ignoreeq, st, w + [x.c], quoted, us[1..], v);
      assert (w + [x.c]) + Content(us[1..]) == w + Content(us);
    }
  }

  lemma QuotedScan(s: string, p: nat, ignoreeq: bool, us: seq<Unit>, v: string)
    requires Inside(InQuotes, us) && Reads(s, p, WordText(Quoted(us)), v)
    ensures Scan(s, p, ignoreeq, WaitVal, "", false) == Got(Content(us), true, p + |WordText(Quoted(us))| - 1)
  {
    hide UnitsText, Content, Inside, Reads;
    var t := UnitsText(us);
    ReadsSplit(s, p, "\"" + t, "\"", v);
    ReadsSplit(s, p, "\"", t, "\"" + v);
    ReadsChar(s, p, "\"", t + ("\"" + v));
    UnitsScan(s, p + 1, ignoreeq, InEscVal, "", true, us, "\"" + v);
    ReadsChar(s, p + 1 + |t|, "\"", v);
    assert "" + Content(us) == Content(us);
  }

  /** The first unit of a bare word. */
  lemma StartScan(s: string, p: nat, ignoreeq: bool, x: Unit, v: string)
    requires Starts(if ignoreeq then InValue else InKey, x) && Reads(s, p, UnitText(x), v)
    ensures Scan(s, p, ignoreeq, WaitVal, "", false) == Scan(s, p + |UnitText(x)|, ignoreeq, InVal, [x.c], false)
  {
    ReadsChar(s, p, UnitText(x), v);
    assert "" + [x.c] == [x.c];
    if x.Escaped? {
      assert UnitText(x) == ['\\'] + [x.c];
      ReadsSplit(s, p, ['\\'], [x.c], v);
      ReadsChar(s, p + 1, [x.c], v);
    }
  }

  lemma BareEndScan(s: string, p: nat, ignoreeq: bool, w: string, v: string)
    requires v == "" || Ends(if ignoreeq then InValue else InKey, v[0])
    requires p > 0 && Reads(s, p, "", v)
    ensures Scan(s, p, ignoreeq, InVal, w, false)
         == Got(w, false, p - if v != "" && IsSpace(v[0]) then 0 else 1)
  {
    assert "" + v == v;
    if v != "" {
      assert s[p] == s[p..][0];
    }
  }

  lemma BareScan(s: string, p: nat, ignoreeq: bool, us: seq<Unit>, v: string)
    requires var place := if ignoreeq then InValue else InKey;
             ProperWord(place, Bare(us)) && Delimited(place, Bare(us), v)
    requires Reads(s, p, UnitsText(us), v)
    ensures Scan(s, p, ignoreeq, WaitVal, "", false)
         == Got(Content(us), false, p + |UnitsText(us)| - if v != "" && IsSpace(v[0]) then 0 else 1)
  {
    hide Scan, Content, Starts, Ends, Inside, Reads, UnitText;
    var x, rest := us[0], us[1..];
    var t := UnitsText(rest);
    ReadsSplit(s, p, UnitText(x), t, v);
    StartScan(s, p, ignoreeq, x, t + v);
    var q := p + |UnitText(x)|;
    UnitsScan(s, q, ignoreeq, InVal, [x.c], false, rest, v);
    ReadsEnd(s, q, t, v);
    ContentMore(us);
    BareEndScan(s, q + |t|, ignoreeq, Content(us), v);
  }

  lemma ContentMore(us: seq<Unit>)
    requires us != []
    ensures Content(us) == [us[0].c] + Content(us[1..])
  {
  }

  /** A word behind white space is what get_val delivers, and ptr is left at its last character
      or at the white space that ended it. */
  lemma WordScan(s: string, p: nat, ignoreeq: bool, space: string, w: Word, v: string)
    requires var place := if ignoreeq then InValue else InKey; ProperWord(place, w) && Delimited(place, w, v)
    requires White(space) && Reads(s, p, space + WordText(w), v)
    ensures Scan(s, p, ignoreeq, WaitVal, "", false)
         == Got(Content(w.units), w.Quoted?,
                p + |space + WordText(w)| - if w.Bare? && v != "" && IsSpace(v[0]) then 0 else 1)
  {
    hide Scan, Content, White, Inside, Starts, Reads;
    ReadsSplit(s, p, space, WordText(w), v);
    SpaceScan(s, p, ignoreeq, space, WordText(w) + v);
    match w
    case Quoted(us) => QuotedScan(s, p + |space|, ignoreeq, us, v);
    case Bare(us) => BareScan(s, p + |space|, ignoreeq, us, v);
  }


  // ---- Whatever the parser takes is a list of the grammar ----

  lemma {:induction false} TakeSpace(u: string) returns (space: string, v: string)
    ensures u == space + v && White(space) && (v == "" || !IsSpace(v[0]))
  {
    if u == "" || !IsSpace(u[0]) {
      space, v := "", u;
    } else {
      var rest;
      rest, v := TakeSpace(u[1..]);
      space := [u[0]] + rest;
    }
  }

  lemma InsideMore(place: Place, us: seq<Unit>)
    requires us != [] ==> Inside(place, us[1..]) && (us[0].Plain? ==> us[0].c != '\\' && !Ends(place, us[0].c))
    ensures Inside(place, us)
  {
    if us != [] {
      assert us == [us[0]] + us[1..];
    }
  }

  /** As many units as there are before the end of a word, the text or a last backslash. */
  lemma {:induction false} TakeUnits(place: Place, u: string) returns (us: seq<Unit>, v: string)
    ensures u == UnitsText(us) + v && Inside(place, us)
    ensures v == "" || v == "\\" || Ends(place, v[0])
    decreases |u|
  {
    hide Ends, Inside;
    if u == "" || u == "\\" || Ends(place, u[0]) {
      us, v := [], u;
      InsideMore(place, us);
    } else {
      var x := if u[0] == '\\' then Escaped(u[1]) else Plain(u[0]);
      var n := |UnitText(x)|;
      assert u == UnitText(x) + u[n..];
      var rest;
      rest, v := TakeUnits(place, u[n..]);
      us := [x] + rest;
      assert us[1..] == rest;
      InsideMore(place, us);
      assert UnitsText(us) + v == UnitText(x) + (UnitsText(rest) + v);
    }
  }

  /** Inside a word the parser does not take the end of the text behind a backslash. */
  lemma BackslashRun(done: seq<RawPair>, slot: Slot, st: ValState, w: string, quoted: bool, v: string, p: nat)
    requires (st == InEscVal && v == "") || (v == "\\" && (st == InVal || st == InEscVal || st == WaitVal))
    ensures Run(Config(done, InWord(slot, st, w, quoted)), v, p) == Err(UnexpectedEnd)
  {
    if v != "" {
      assert v[1..] == "";
    }
  }

  lemma TakeQuoted(done: seq<RawPair>, slot: Slot, u: string, p: nat) returns (w: Word, v: string)
    requires u != "" && u[0] == '"' && Run(AtWord(done, slot), u, p).Ok?
    ensures u == WordText(w) + v && w.Quoted? && ProperWord(PlaceOf(slot), w)
  {
    hide Run, UnitsText, Content, Inside;
    var us, rest := TakeUnits(InQuotes, u[1..]);
    var t := UnitsText(us);
    assert u == "\"" + u[1..];
    QuoteRun(done, slot, "", u[1..], p);
    UnitsRun(done, slot, InEscVal, "", true, us, rest, p + 1);
    if rest == "" || rest == "\\" {
      BackslashRun(done, slot, InEscVal, "" + Content(us), true, rest, p + 1 + |t|);
      assert false;
    } else {
      w, v := Quoted(us), rest[1..];
      assert rest == "\"" + v;
      assert u == ("\"" + t + "\"") + v;
    }
  }

  lemma TakeBare(done: seq<RawPair>, slot: Slot, u: string, p: nat) returns (w: Word, v: string)
    requires u != "" && u[0] != '"' && !IsSpace(u[0]) && (u[0] == '=' ==> slot.ForVal?)
    requires Run(AtWord(done, slot), u, p).Ok?
    ensures u == WordText(w) + v && w.Bare? && ProperWord(PlaceOf(slot), w) && Delimited(PlaceOf(slot), w, v)
  {
    hide Run, UnitsText, Content, Ends, Inside;
    if u == "\\" {
      BackslashRun(done, slot, WaitVal, "", false, u, p);
      assert false;
    } else {
      var x := if u[0] == '\\' then Escaped(u[1]) else Plain(u[0]);
      var n := |UnitText(x)|;
      assert u == UnitText(x) + u[n..];
      BareStarts(done, slot, x, u[n..], p);
      var us, rest := TakeUnits(PlaceOf(slot), u[n..]);
      UnitsRun(done, slot, InVal, [x.c], false, us, rest, p + n);
      if rest == "\\" && !Ends(PlaceOf(slot), rest[0]) {
        BackslashRun(done, slot, InVal, [x.c] + Content(us), false, rest, p + n + |UnitsText(us)|);
        assert false;
      } else {
        w, v := Bare([x] + us), rest;
        OneMore(x, us, v);
        assert ([x] + us)[1..] == us;
      }
    }
  }

  lemma OneMore(x: Unit, us: seq<Unit>, v: string)
    ensures UnitText(x) + (UnitsText(us) + v) == UnitsText([x] + us) + v
  {
    assert ([x] + us)[1..] == us;
    assert UnitsText([x] + us) == UnitText(x) + UnitsText(us);
  }

  /** A word at the head of a text that the parser takes. */
  lemma TakeWord(done: seq<RawPair>, slot: Slot, u: string, p: nat) returns (w: Word, v: string)
    requires u != "" && !IsSpace(u[0]) && Run(AtWord(done, slot), u, p).Ok?
    ensures u == WordText(w) + v && ProperWord(PlaceOf(slot), w) && Delimited(PlaceOf(slot), w, v)
  {
    if u[0] == '"' {
      w, v := TakeQuoted(done, slot, u, p);
    } else {
      w, v := TakeBare(done, slot, u, p);
    }
  }

  /** A key with its arrow. */
  lemma TakeKey(done: seq<RawPair>, before: string, u: string, p: nat)
      returns (key: Word, mid: string, v: string)
    requires u != "" && !IsSpace(u[0]) && Run(AtWord(done, ForKey), u, p).Ok?
    ensures ProperWord(InKey, key) && White(mid) && u == WordText(key) + mid + "=>" + v
  {
    hide Run, WordText, Content, White, ProperWord, AtWord;
    var v1, v2;
    key, v1 := TakeWord(done, ForKey, u, p);
    var k, q := Content(key.units), p + |WordText(key)|;
    WordRun(done, ForKey, key, v1, p);
    mid, v2 := TakeSpace(v1);
    SpaceRun(Config(done, BeforeEq(k)), mid, v2, q);
    NeedArrow(done, k, v2, q + |mid|);
    v := v2[2..];
    assert WordText(key) + (mid + ("=>" + v)) == WordText(key) + mid + "=>" + v;
  }

  lemma NeedArrow(done: seq<RawPair>, key: string, v: string, p: nat)
    requires (v == "" || !IsSpace(v[0])) && Run(Config(done, BeforeEq(key)), v, p).Ok?
    ensures |v| >= 2 && v == "=>" + v[2..]
  {
    var c := Config(done, BeforeGt(key));
    assert v != "" && v[0] == '=';
    assert Run(c, v[1..], p + 1).Ok?;
    assert v[1..] != "" && v[1..][0] == '>';
  }

  /** A value with the white space around it. */
  lemma TakeVal(done: seq<RawPair>, key: string, u: string, p: nat)
      returns (gap: string, val: Word, after: string, v: string)
    requires Run(AtWord(done, ForVal(key)), u, p).Ok?
    ensures White(gap) && ProperWord(InValue, val) && White(after) && u == gap + WordText(val) + after + v
    ensures v == "" || v[0] == ','
  {
    hide Collect, WordText, Content, ProperWord;
    var u1, v1;
    gap, u1 := TakeSpace(u);
    SpaceRun(AtWord(done, ForVal(key)), gap, u1, p);
    val, v1 := TakeWord(done, ForVal(key), u1, p + |gap|);
    WordRun(done, ForVal(key), val, v1, p + |gap|);
    after, v := TakeSpace(v1);
    SpaceRun(Ended(done, ForVal(key), Content(val.units), val.Quoted?), after, v, p + |gap| + |WordText(val)|);
    assert gap + (WordText(val) + (after + v)) == gap + WordText(val) + after + v;
  }

  lemma TakeItem(done: seq<RawPair>, before: string, u: string, p: nat) returns (i: Item, v: string)
    requires White(before) && u != "" && !IsSpace(u[0]) && Run(AtWord(done, ForKey), before + u, p).Ok?
    ensures ProperItem(i) && before + u == ItemText(i) + v && (v == "" || v[0] == ',')
  {
    hide Run, WordText, Content, White, ProperWord, Finish, Step;
    SpaceRun(AtWord(done, ForKey), before, u, p);
    var key, mid, rest := TakeKey(done, before, u, p + |before|);
    i := Item(before, key, mid, "", key, "");
    assert before + u == KeyText(i) + rest;
    KeyPart(done, i, rest, p);
    var gap, val, after;
    gap, val, after, v := TakeVal(done, Content(key.units), rest, p + |KeyText(i)|);
    i := Item(before, key, mid, gap, val, after);
    assert KeyText(i) + (ValText(i) + v) == ItemText(i) + v;
  }

  /** What is read behind a key does not depend on the value. */
  lemma KeyPart(done: seq<RawPair>, i: Item, v: string, p: nat)
    requires White(i.before) && ProperWord(InKey, i.key) && White(i.mid)
    ensures Run(AtWord(done, ForKey), KeyText(i) + v, p)
         == Run(AtWord(done, ForVal(Content(i.key.units))), v, p + |KeyText(i)|)
  {
    var j := Item(i.before, i.key, i.mid, "", Quoted([]), "");
    assert KeyText(j) == KeyText(i);
    KeyRun(done, j, v, p);
  }

  lemma {:induction false} TakeList(done: seq<RawPair>, u: string, p: nat) returns (l: List)
    requires Run(AtWord(done, ForKey), u, p).Ok?
    ensures Reading(l, u)
    decreases |u|
  {
    hide Run, ItemText, ProperItem, AtWord;
    var before, rest := TakeSpace(u);
    if rest == "" {
      l := Blank(before);
    } else {
      var i, v := TakeItem(done, before, rest, p);
      if v == "" {
        l := Last(i);
      } else {
        assert v == "," + v[1..];
        ItemRun(done, i, v, p);
        CommaRun(done + [ItemPair(i)], v[1..], p + |ItemText(i)|);
        var more := TakeList(done + [ItemPair(i)], v[1..], p + |ItemText(i)| + 1);
        l := Then(i, more);
        assert u == ItemText(i) + "," + v[1..];
      }
    }
  }

  // ---- Where the parser stops ----

  function Walk(c: Config, u: string): Option<Config>
    decreases |u|
  {
    if u == "" then Some(c)
    else match Step(c, u[0])
         case None => None
         case Some(d) => Walk(d, u[1..])
  }

  lemma {:induction false} WalkRun(c: Config, a: string, b: string, p: nat)
    requires Walk(c, a).Some?
    ensures Run(c, a + b, p) == Run(Walk(c, a).value, b, p + |a|)
    decreases |a|
  {
    hide Step;
    if a == "" {
      assert a + b == b;
    } else {
      assert (a + b)[1..] == a[1..] + b;
      WalkRun(Step(c, a[0]).value, a[1..], b, p + 1);
    }
  }

  /** A run that does not reach the end stops at the first character without a step. */
  lemma {:induction false} WalkStops(c: Config, u: string, p: nat) returns (n: nat)
    requires Walk(c, u).None?
    ensures n < |u| && Walk(c, u[..n]).Some? && Step(Walk(c, u[..n]).value, u[n]).None?
    ensures Run(c, u, p) == Err(SyntaxNear(u[n], p + n))
    decreases |u|
  {
    hide Step;
    if Step(c, u[0]).None? {
      n := 0;
    } else {
      var m := WalkStops(Step(c, u[0]).value, u[1..], p + 1);
      n := m + 1;
      assert u[..n][1..] == u[1..][..m] && u[..n][0] == u[0];
    }
  }

  /** What can be added so that the parser takes the text. */
  function Completion(c: Config): string {
    match c.phase
    case InWord(ForKey, WaitVal, _, _) => ""
    case InWord(ForKey, InVal, _, _) => "=>x"
    case InWord(ForKey, InEscVal, _, _) => "\"=>x"
    case InWord(ForKey, WaitEscIn, _, _) => "x=>x"
    case InWord(ForKey, WaitEscEscIn, _, _) => "x\"=>x"
    case InWord(ForVal(_), WaitVal, _, _) => "x"
    case InWord(ForVal(_), InVal, _, _) => ""
    case InWord(ForVal(_), InEscVal, _, _) => "\""
    case InWord(ForVal(_), WaitEscIn, _, _) => "x"
    case InWord(ForVal(_), WaitEscEscIn, _, _) => "x\""
    case BeforeEq(_) => "=>x"
    case BeforeGt(_) => ">x"
    case Between => ""
  }

  lemma {:induction false} CompletionRun(c: Config, p: nat)
    ensures Run(c, Completion(c), p).Ok? && NulFree(Completion(c))
    decreases |Completion(c)|
  {
    hide Collect;
    var t := Completion(c);
    if t != "" {
      var d := Step(c, t[0]).value;
      assert t[1..] == Completion(d);
      CompletionRun(d, p + 1);
    }
  }

  /** Some text goes on like this. */
  ghost predicate Completable(s: string) {
    exists t :: NulFree(t) && IsHstoreText(s + t)
  }

  lemma WalkCompletes(s: string)
    requires Walk(AtWord([], ForKey), s).Some?
    ensures Completable(s)
  {
    var start := AtWord([], ForKey);
    var d := Walk(start, s).value;
    var t := Completion(d);
    CompletionRun(d, |s|);
    WalkRun(start, s, t, 0);
    var l := TakeList([], s + t, 0);
    assert IsHstoreText(s + t);
  }

  lemma StuckForGood(s: string, c: char)
    requires var d := Walk(AtWord([], ForKey), s); d.Some? && Step(d.value, c).None?
    ensures !Completable(s + [c])
  {
    var start := AtWord([], ForKey);
    forall t | NulFree(t)
      ensures !IsHstoreText(s + [c] + t)
    {
      assert s + [c] + t == s + ([c] + t);
      WalkRun(start, s, [c] + t, 0);
      forall l: List
        ensures !Reading(l, s + [c] + t)
      {
        if Reading(l, s + [c] + t) {
          ListRun([], l, 0);
        }
      }
    }
  }

  // ---- What the parser decides ----

  /** Every list of the grammar is parsed as what it means. */
  lemma ParseMeaning(l: List)
    requires ProperList(l) && NulFree(ListText(l))
    ensures Parse(ListText(l)) == Ok(Meaning(l))
  {
    hide Run, ListText, Meaning, ProperList, Parse;
    ListRun([], l, 0);
    ParseIsRun(ListText(l));
    assert [] + Meaning(l) == Meaning(l);
  }

  /** What is parsed is a list of the grammar and means the pairs collected. */
  lemma ParsedReads(s: string) returns (l: List)
    requires NulFree(s) && Parse(s).Ok?
    ensures Reading(l, s) && Meaning(l) == Parse(s).value
  {
    ParseIsRun(s);
    l := TakeList([], s, 0);
    ParseMeaning(l);
  }

  /** A text that ends too soon could still have gone on, and a character that is complained of
      is the first that no text could have there. */
  lemma ParseStops(s: string)
    requires NulFree(s)
    ensures match Parse(s)
            case Ok(_) => IsHstoreText(s)
            case Err(UnexpectedEnd) => !IsHstoreText(s) && Completable(s)
            case Err(SyntaxNear(c, p)) => p < |s| && s[p] == c && Completable(s[..p]) && !Completable(s[..p + 1])
  {
    hide Run;
    var start := AtWord([], ForKey);
    ParseIsRun(s);
    if Parse(s).Ok? {
      var l := ParsedReads(s);
    } else if Walk(start, s).Some? {
      forall l: List
        ensures !Reading(l, s)
      {
        if Reading(l, s) {
          ParseMeaning(l);
        }
      }
      WalkCompletes(s);
      EndError(start, s);
    } else {
      var n := WalkStops(start, s, 0);
      WalkCompletes(s[..n]);
      StuckForGood(s[..n], s[n]);
      assert s[..n] + [s[n]] == s[..n + 1];
    }
  }

  lemma EndError(c: Config, s: string)
    requires Walk(c, s).Some? && Run(c, s, 0).Err?
    ensures Run(c, s, 0) == Err(UnexpectedEnd)
  {
    WalkRun(c, s, "", 0);
    assert s + "" == s;
  }

  lemma PrefixCompletable(s: string, m: nat, n: nat)
    requires m <= n <= |s| && NulFree(s) && Completable(s[..n])
    ensures Completable(s[..m])
  {
    var t :| NulFree(t) && IsHstoreText(s[..n] + t);
    assert s[..n] + t == s[..m] + (s[m..n] + t);
    assert NulFree(s[m..n] + t);
  }

  /** Exactly which texts are taken, which end too soon, and which are wrong at position p. */
  lemma ParseDecides(s: string, p: nat)
    requires NulFree(s)
    ensures Parse(s).Ok? <==> IsHstoreText(s)
    ensures Parse(s) == Err(UnexpectedEnd) <==> !IsHstoreText(s) && Completable(s)
    ensures p < |s| ==>
              (Parse(s) == Err(SyntaxNear(s[p], p)) <==> Completable(s[..p]) && !Completable(s[..p + 1]))
  {
    hide Completable, IsHstoreText, Parse;
    ParseStops(s);
    assert s[..|s|] == s;
    if IsHstoreText(s) {
      ReadsWhole(s);
    }
    match Parse(s) {
      case Err(SyntaxNear(_, q)) =>
        if Completable(s) {
          PrefixCompletable(s, q + 1, |s|);
        }
        if p < q {
          PrefixCompletable(s, p + 1, q);
        } else if q < p < |s| && Completable(s[..p]) {
          PrefixCompletable(s, q + 1, p);
        }
      case _ =>
        if Completable(s) && p < |s| {
          PrefixCompletable(s, p + 1, |s|);
        }
    }
  }

  lemma ReadsWhole(s: string)
    requires NulFree(s) && IsHstoreText(s)
    ensures Parse(s).Ok? && Completable(s)
  {
    var l :| Reading(l, s);
    ParseMeaning(l);
    assert s + "" == s;
  }
}
