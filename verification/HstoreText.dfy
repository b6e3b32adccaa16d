/** The text form of an hstore value (contrib/hstore/hstore_io.c): the parser's two state
    machines, the printer, and that parsing undoes printing.
 */
module HstoreText {
  import opened Hstores

  datatype ParseError = UnexpectedEnd | SyntaxNear(c: char, position: nat)

  datatype Result<T> = Ok(value: T) | Err(error: ParseError)

  /** One pair as the parser collects it (Pairs, hstore.h:40-48): the whole words, and their
      lengths as 16-bit fields hold them. */
  datatype RawFields = Raw(key: string, val: string, keylen: uint16, vallen: uint16, isnull: bool, needfree: bool)

  /** The lengths never exceed the words. */
  type RawPair = r: RawFields | r.keylen <= |r.key| && r.vallen <= |r.val|
    witness Raw("", "", 0, 0, false, false)

  /** The character at p of a C string. */
  function At(s: string, p: nat): char {
    if p < |s| then s[p] else '\0'
  }

  /** isspace in the C locale. */
  predicate IsSpace(c: char) {
    c == ' ' || 9 <= c as int <= 13
  }

  // ---- get_val ----

  datatype ValState = WaitVal | InVal | InEscVal | WaitEscIn | WaitEscEscIn

  /** What get_val ends with: nothing left, a word with the position ptr is left at, or an
      error. */
  datatype ValResult = NoVal | Got(word: string, escaped: bool, at: nat) | Failed(error: ParseError)

  /** get_val (lines 46-149) from position p in state st on. */
  function Scan(s: string, p: nat, ignoreeq: bool, st: ValState, word: string, escaped: bool): ValResult
    requires p <= |s| && (st == InVal ==> p > 0)
    decreases |s| - p
  {
    var c := At(s, p);
    match st
    case WaitVal =>
      if c == '"' then Scan(s, p + 1, ignoreeq, InEscVal, word, true)
      else if c == '\0' then NoVal
      else if c == '=' && !ignoreeq then Failed(SyntaxNear(c, p))
      else if c == '\\' then Scan(s, p + 1, ignoreeq, WaitEscIn, word, escaped)
      else if !IsSpace(c) then Scan(s, p + 1, ignoreeq, InVal, word + [c], escaped)
      else Scan(s, p + 1, ignoreeq, WaitVal, word, escaped)
    case InVal =>
      if c == '\\' then Scan(s, p + 1, ignoreeq, WaitEscIn, word, escaped)
      else if c == '=' && !ignoreeq then Got(word, escaped, p - 1)
      else if c == ',' && ignoreeq then Got(word, escaped, p - 1)
      else if IsSpace(c) then Got(word, escaped, p)
      else if c == '\0' then Got(word, escaped, p - 1)
      else Scan(s, p + 1, ignoreeq, InVal, word + [c], escaped)
    case InEscVal =>
      if c == '\\' then Scan(s, p + 1, ignoreeq, WaitEscEscIn, word, escaped)
      else if c == '"' then Got(word, escaped, p)
      else if c == '\0' then Failed(UnexpectedEnd)
      else Scan(s, p + 1, ignoreeq, InEscVal, word + [c], escaped)
    case WaitEscIn =>
      if c == '\0' then Failed(UnexpectedEnd)
      else Scan(s, p + 1, ignoreeq, InVal, word + [c], escaped)
    case WaitEscEscIn =>
      if c == '\0' then Failed(UnexpectedEnd)
      else Scan(s, p + 1, ignoreeq, InEscVal, word + [c], escaped)
  }

  /** A word ends where it began or later and before the end of the string, and has no NUL. */
  lemma {:induction false} ScanAdvances(s: string, p: nat, ignoreeq: bool, st: ValState, word: string, escaped: bool)
    requires p <= |s| && (st == InVal ==> p > 0) && NulFree(word)
    ensures var r := Scan(s, p, ignoreeq, st, word, escaped);
            r.Got? ==> r.at + (if st == InVal then 1 else 0) >= p && r.at < |s| && NulFree(r.word)
    decreases |s| - p
  {
    var c := At(s, p);
    match st
    case WaitVal =>
      if c == '"' {
        ScanAdvances(s, p + 1, ignoreeq, InEscVal, word, true);
      } else if c == '\0' || (c == '=' && !ignoreeq) {
      } else if c == '\\' {
        ScanAdvances(s, p + 1, ignoreeq, WaitEscIn, word, escaped);
      } else if !IsSpace(c) {
        ScanAdvances(s, p + 1, ignoreeq, InVal, word + [c], escaped);
      } else {
        ScanAdvances(s, p + 1, ignoreeq, WaitVal, word, escaped);
      }
    case InVal =>
      if c == '\\' {
        ScanAdvances(s, p + 1, ignoreeq, WaitEscIn, word, escaped);
      } else if (c == '=' && !ignoreeq) || (c == ',' && ignoreeq) || IsSpace(c) || c == '\0' {
      } else {
        ScanAdvances(s, p + 1, ignoreeq, InVal, word + [c], escaped);
      }
    case InEscVal =>
      if c == '\\' {
        ScanAdvances(s, p + 1, ignoreeq, WaitEscEscIn, word, escaped);
      } else if c == '"' || c == '\0' {
      } else {
        ScanAdvances(s, p + 1, ignoreeq, InEscVal, word + [c], escaped);
      }
    case WaitEscIn =>
      if c != '\0' {
        ScanAdvances(s, p + 1, ignoreeq, InVal, word + [c], escaped);
      }
    case WaitEscEscIn =>
      if c != '\0' {
        ScanAdvances(s, p + 1, ignoreeq, InEscVal, word + [c], escaped);
      }
  }

  // ---- parse_hstore ----

  datatype ParseState = WKey | WEq | WGt | WVal | WDel

  predicate IsNullWord(word: string) {
    |word| == 4 && word[0] in "nN" && word[1] in "uU" && word[2] in "lL" && word[3] in "lL"
  }

  lemma ModLess(n: nat)
    ensures n % 0x1_0000 <= n
    ensures n < 0x1_0000 ==> n % 0x1_0000 == n
  {
  }

  /** Lines 184-186 and 224-233. */
  function Collect(key: string, word: string, escaped: bool): RawPair {
    ModLess(|key|);
    ModLess(|word|);
    Raw(key, word, |key| % 0x1_0000, |word| % 0x1_0000, !escaped && IsNullWord(word), true)
  }

  /** parse_hstore (lines 173-257) from position p in state st on, after the pairs done. */
  function ParseFrom(s: string, p: nat, st: ParseState, key: string, done: seq<RawPair>): Result<seq<RawPair>>
    requires p <= |s|
    decreases |s| - p
  {
    var c := At(s, p);
    match st
    case WKey =>
      var r := Scan(s, p, false, WaitVal, "", false);
      ScanAdvances(s, p, false, WaitVal, "", false);
      (match r
       case NoVal => Ok(done)
       case Failed(e) => Err(e)
       case Got(word, _, at) => ParseFrom(s, at + 1, WEq, word, done))
    case WEq =>
      if c == '=' then ParseFrom(s, p + 1, WGt, key, done)
      else if c == '\0' then Err(UnexpectedEnd)
      else if !IsSpace(c) then Err(SyntaxNear(c, p))
      else ParseFrom(s, p + 1, WEq, key, done)
    case WGt =>
      if c == '>' then ParseFrom(s, p + 1, WVal, key, done)
      else if c == '\0' then Err(UnexpectedEnd)
      else Err(SyntaxNear(c, p))
    case WVal =>
      var r := Scan(s, p, true, WaitVal, "", false);
      ScanAdvances(s, p, true, WaitVal, "", false);
      (match r
       case NoVal => Err(UnexpectedEnd)
       case Failed(e) => Err(e)
       case Got(word, escaped, at) => ParseFrom(s, at + 1, WDel, key, done + [Collect(key, word, escaped)]))
    case WDel =>
      if c == ',' then ParseFrom(s, p + 1, WKey, key, done)
      else if c == '\0' then Ok(done)
      else if !IsSpace(c) then Err(SyntaxNear(c, p))
      else ParseFrom(s, p + 1, WDel, key, done)
  }

  function Parse(s: string): Result<seq<RawPair>> {
    ParseFrom(s, 0, WKey, "", [])
  }

  // ---- The parser as the program runs it ----

  /** HSParser (lines 6-17), the buffers being sequences that grow. */
  class HSParser {
    const begin: string
    var ptr: nat
    var word: string
    var pairs: seq<RawPair>

    constructor (s: string)
      ensures begin == s && ptr == 0 && pairs == []
    {
      begin, ptr, word, pairs := s, 0, "", [];
    }

    /** get_val (lines 37-152). */
    method GetVal(ignoreeq: bool) returns (ok: bool, escaped: bool, error: Option<ParseError>)
      requires ptr <= |begin|
      modifies this`ptr, this`word
      ensures match Scan(begin, old(ptr), ignoreeq, WaitVal, "", false)
              case NoVal => !ok && error == None
              case Got(w, e, at) => ok && error == None && word == w && escaped == e && ptr == at
              case Failed(e) => error == Some(e)
    {
      var st := WaitVal;
      word := "";
      escaped, ok, error := false, false, None;
      ghost var r := Scan(begin, ptr, ignoreeq, WaitVal, "", false);
      while true
        invariant ptr <= |begin| && (st == InVal ==> ptr > 0)
        invariant r == Scan(begin, ptr, ignoreeq, st, word, escaped)
        decreases |begin| - ptr
      {
        var c := At(begin, ptr);
        match st {
          case WaitVal =>
            if c == '"' {
              escaped := true;
              st := InEscVal;
            } else if c == '\0' {
              return false, escaped, None;
            } else if c == '=' && !ignoreeq {
              error := Some(SyntaxNear(c, ptr));
              return;
            } else if c == '\\' {
              st := WaitEscIn;
            } else if !IsSpace(c) {
              word := word + [c];
              st := InVal;
            }
          case InVal =>
            if c == '\\' {
              st := WaitEscIn;
            } else if c == '=' && !ignoreeq {
              ptr := ptr - 1;
              return true, escaped, None;
            } else if c == ',' && ignoreeq {
              ptr := ptr - 1;
              return true, escaped, None;
            } else if IsSpace(c) {
              return true, escaped, None;
            } else if c == '\0' {
              ptr := ptr - 1;
              return true, escaped, None;
            } else {
              word := word + [c];
            }
          case InEscVal =>
            if c == '\\' {
              st := WaitEscEscIn;
            } else if c == '"' {
              return true, escaped, None;
            } else if c == '\0' {
              error := Some(UnexpectedEnd);
              return;
            } else {
              word := word + [c];
            }
          case WaitEscIn =>
            if c == '\0' {
              error := Some(UnexpectedEnd);
              return;
            }
            word := word + [c];
            st := InVal;
          case WaitEscEscIn =>
            if c == '\0' {
              error := Some(UnexpectedEnd);
              return;
            }
            word := word + [c];
            st := InEscVal;
        }
        ptr := ptr + 1;
      }
    }

    /** parse_hstore (lines 161-258). */
    method ParseHstore() returns (error: Option<ParseError>)
      modifies this
      ensures match Parse(begin)
              case Ok(ps) => error == None && pairs == ps
              case Err(e) => error == Some(e)
    {
      var st := WKey;
      var key := "";
      error := None;
      pairs, ptr, word := [], 0, "";
      while true
        invariant ptr <= |begin|
        invariant Parse(begin) == ParseFrom(begin, ptr, st, key, pairs)
        decreases |begin| - ptr
      {
        hide Scan, Parse;
        var c := At(begin, ptr);
        match st {
          case WKey =>
            ScanAdvances(begin, ptr, false, WaitVal, "", false);
            var ok, _, e := GetVal(false);
            if e != None {
              return e;
            } else if !ok {
              return;
            }
            key := word;
            st := WEq;
          case WEq =>
            if c == '=' {
              st := WGt;
            } else if c == '\0' {
              return Some(UnexpectedEnd);
            } else if !IsSpace(c) {
              return Some(SyntaxNear(c, ptr));
            }
          case WGt =>
            if c == '>' {
              st := WVal;
            } else if c == '\0' {
              return Some(UnexpectedEnd);
            } else {
              return Some(SyntaxNear(c, ptr));
            }
          case WVal =>
            ScanAdvances(begin, ptr, true, WaitVal, "", false);
            var ok, escaped, e := GetVal(true);
            if e != None {
              return e;
            } else if !ok {
              return Some(UnexpectedEnd);
            }
            pairs := pairs + [Collect(key, word, escaped)];
            st := WDel;
          case WDel =>
            if c == ',' {
              st := WKey;
            } else if c == '\0' {
              return;
            } else if !IsSpace(c) {
              return Some(SyntaxNear(c, ptr));
            }
        }
        ptr := ptr + 1;
      }
    }
  }
}
