/** Printing an hstore (cpw and hstore_out in contrib/hstore/hstore_io.c): which text of the
    grammar is printed, and that the parser reads it back.
 */
module HstorePrint {
  import opened Hstores
  import opened HstoreText
  import opened HstoreGrammar

  function Escape(s: string): string {
    if |s| == 0 then ""
    else Escape(s[..|s| - 1]) + EscapeChar(s[|s| - 1])
  }

  function EscapeChar(c: char): string {
    if c == '"' || c == '\\' then ['\\', c] else [c]
  }

  /** cpw (lines 403-415): appends len characters of src from position from on. */
  method Cpw(dst: string, src: string, from: nat, len: nat) returns (out: string)
    requires from + len <= |src|
    ensures out == dst + Escape(src[from..from + len])
  {
    out := dst;
    var ptr := from;
    assert src[from..from] == "";
    while ptr - from < len
      invariant from <= ptr <= from + len
      invariant out == dst + Escape(src[from..ptr])
    {
      hide Escape, EscapeChar;
      EscapeNext(dst, src, from, ptr);
      if src[ptr] == '"' || src[ptr] == '\\' {
        out := out + ['\\'];
      }
      out := out + [src[ptr]];
      ptr := ptr + 1;
    }
  }

  lemma EscapeNext(dst: string, src: string, from: nat, ptr: nat)
    requires from <= ptr < |src|
    ensures var (out, c) := (dst + Escape(src[from..ptr]), src[ptr]);
            dst + Escape(src[from..ptr + 1]) == if c == '"' || c == '\\' then out + ['\\'] + [c] else out + [c]
  {
    var t := src[from..ptr + 1];
    assert t[..ptr - from] == src[from..ptr];
    assert Escape(t) == Escape(src[from..ptr]) + EscapeChar(src[ptr]);
  }

  function PrintVal(v: Option<string>): string {
    if v.None? then "NULL" else "\"" + Escape(v.value) + "\""
  }

  function PrintPair(p: Pair): string {
    "\"" + Escape(p.key) + "\"" + "=>" + PrintVal(p.val)
  }

  /** The pairs from i on, with a comma and a space between two. */
  function PrintFrom(ps: seq<Pair>, i: nat): string
    requires i <= |ps|
    decreases |ps| - i
  {
    if i == |ps| then ""
    else if i + 1 == |ps| then PrintPair(ps[i])
    else PrintPair(ps[i]) + ", " + PrintFrom(ps, i + 1)
  }

  /** hstore_out (lines 419-473). */
  method HstoreOut(hs: HStore) returns (out: string)
    requires Layout(hs)
    ensures out == PrintFrom(Contents(hs), 0)
  {
    hide Layout, Contents, Escape;
    out := "";
    ghost var ps := Contents(hs);
    var i := 0;
    while i < |hs.entries|
      invariant 0 <= i <= |hs.entries|
      invariant out + PrintFrom(ps, i) == PrintFrom(ps, 0)
    {
      hide PrintFrom;
      ghost var before := out;
      out := PrintEntry(out, hs, i);
      if i + 1 != |hs.entries| {
        out := out + ", ";
      }
      PrintNext(before, ps, i);
      i := i + 1;
    }
    assert out + "" == out;
  }

  lemma PrintNext(out: string, ps: seq<Pair>, i: nat)
    requires i < |ps|
    ensures out + PrintPair(ps[i]) + (if i + 1 != |ps| then ", " else "") + PrintFrom(ps, i + 1)
         == out + PrintFrom(ps, i)
  {
    hide PrintPair;
  }

  /** Lines 444-461. */
  method PrintEntry(dst: string, hs: HStore, i: nat) returns (out: string)
    requires Layout(hs) && i < |hs.entries|
    ensures out == dst + PrintPair(Contents(hs)[i])
  {
    hide Layout, Contents, Escape;
    EntryAt(hs, i);
    var e := hs.entries[i];
    out := dst + ['"'];
    out := Cpw(out, hs.str, e.pos, e.keylen);
    out := out + ['"'] + ['='] + ['>'];
    if e.valisnull {
      out := out + ['N'] + ['U'] + ['L'] + ['L'];
    } else {
      out := out + ['"'];
      out := Cpw(out, hs.str, e.pos + e.keylen, e.vallen);
      out := out + ['"'];
    }
  }

  // ---- Which text is printed ----

  /** Quotes and backslashes stand behind a backslash, everything else for itself. */
  function PrintedUnits(s: string): (us: seq<Unit>)
    ensures |us| == |s|
  {
    seq(|s|, i requires 0 <= i < |s| => if s[i] == '"' || s[i] == '\\' then Escaped(s[i]) else Plain(s[i]))
  }

  /** A null is bare, and every other word is quoted. */
  function PrintedVal(v: Option<string>): Word {
    match v
    case None => Bare([Plain('N'), Plain('U'), Plain('L'), Plain('L')])
    case Some(w) => Quoted(PrintedUnits(w))
  }

  /** A pair behind the first has a space before it; there is no other white space. */
  function PrintedItem(p: Pair, first: bool): Item {
    Item(if first then "" else " ", Quoted(PrintedUnits(p.key)), "", "", PrintedVal(p.val), "")
  }

  function Printed(ps: seq<Pair>, i: nat): List
    requires i <= |ps|
    decreases |ps| - i
  {
    if i == |ps| then Blank("")
    else if i + 1 == |ps| then Last(PrintedItem(ps[i], i == 0))
    else Then(PrintedItem(ps[i], i == 0), Printed(ps, i + 1))
  }

  lemma {:induction false} UnitsLast(us: seq<Unit>, x: Unit)
    ensures UnitsText(us + [x]) == UnitsText(us) + UnitText(x)
  {
    if us == [] {
      assert us + [x] == [x];
    } else {
      UnitsLast(us[1..], x);
      assert (us + [x])[1..] == us[1..] + [x];
    }
  }

  lemma {:induction false} EscapeUnits(s: string)
    ensures Escape(s) == UnitsText(PrintedUnits(s)) && Inside(InQuotes, PrintedUnits(s))
    ensures Content(PrintedUnits(s)) == s
  {
    if |s| > 0 {
      var (us, n) := (PrintedUnits(s), |s| - 1);
      EscapeUnits(s[..n]);
      assert us == PrintedUnits(s[..n]) + [us[n]];
      UnitsLast(PrintedUnits(s[..n]), us[n]);
    }
  }

  lemma PrintedNull()
    ensures var w := PrintedVal(None); WordText(w) == "NULL" && ProperWord(InValue, w) && Content(w.units) == "NULL"
  {
    var n, l := Plain('N'), Plain('L');
    assert UnitsText([l, l]) == "LL";
    assert [n, Plain('U'), l, l][1..][1..] == [l, l];
  }

  lemma ItemPrinted(p: Pair, first: bool)
    ensures var i := PrintedItem(p, first);
            ItemText(i) == (if first then "" else " ") + PrintPair(p) && ProperItem(i) && ItemPair(i) == RawOf(p)
  {
    hide Escape, PrintedUnits, UnitsText, Content, Inside, IsNullWord, ItemPair, Collect;
    EscapeUnits(p.key);
    PrintedNull();
    match p.val {
      case None =>
      case Some(v) => EscapeUnits(v);
    }
    PairCollected(PrintedItem(p, first));
  }

  /** What the parser collects for a printed pair. */
  ghost function RawOf(p: Pair): RawPair {
    if p.val.None? then Collect(p.key, "NULL", false) else Collect(p.key, p.val.value, true)
  }

  ghost function RawAll(ps: seq<Pair>): (r: seq<RawPair>)
    ensures |r| == |ps|
  {
    seq(|ps|, i requires 0 <= i < |ps| => RawOf(ps[i]))
  }


  /** What is printed, with its white space, its quotes and its backslashes. */
  lemma {:induction false} ListPrinted(ps: seq<Pair>, i: nat)
    requires i <= |ps|
    ensures ProperList(Printed(ps, i)) && Meaning(Printed(ps, i)) == RawAll(ps)[i..]
    ensures ListText(Printed(ps, i)) == (if i == 0 || i == |ps| then "" else " ") + PrintFrom(ps, i)
    decreases |ps| - i
  {
    hide PrintPair, PrintedItem, ItemText, ProperItem, ItemPair, RawOf;
    if i < |ps| {
      ItemPrinted(ps[i], i == 0);
      ListPrinted(ps, i + 1);
      assert RawAll(ps)[i..] == [RawOf(ps[i])] + RawAll(ps)[i + 1..];
    }
  }

  lemma {:induction false} PrintNulFree(ps: seq<Pair>, i: nat)
    requires Clean(ps) && i <= |ps|
    ensures NulFree(PrintFrom(ps, i))
    decreases |ps| - i
  {
    if i < |ps| {
      hide PrintPair;
      PairNulFreeText(ps[i]);
      PrintNulFree(ps, i + 1);
    }
  }

  lemma {:induction false} EscapeNulFree(s: string)
    requires NulFree(s)
    ensures NulFree(Escape(s))
  {
    if |s| > 0 {
      EscapeNulFree(s[..|s| - 1]);
    }
  }

  lemma PairNulFreeText(p: Pair)
    requires PairNulFree(p)
    ensures NulFree(PrintPair(p))
  {
    hide Escape;
    EscapeNulFree(p.key);
    if p.val.Some? {
      EscapeNulFree(p.val.value);
    }
  }

  /** hstore_out prints the text Printed, and the parser collects from it those pairs in order,
      null and the text NULL told apart, quotes and backslashes restored. */
  lemma ParsePrint(ps: seq<Pair>)
    requires Clean(ps)
    ensures Reading(Printed(ps, 0), PrintFrom(ps, 0))
    ensures Parse(PrintFrom(ps, 0)) == Ok(RawAll(ps))
  {
    hide PrintFrom, Printed, ProperList, ListText, Meaning, RawOf;
    ListPrinted(ps, 0);
    assert "" + PrintFrom(ps, 0) == PrintFrom(ps, 0) && RawAll(ps)[0..] == RawAll(ps);
    PrintNulFree(ps, 0);
    ParseMeaning(Printed(ps, 0));
  }
}
