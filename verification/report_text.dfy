/** The string transformers of the result-plotting script: splitting table
    text into rows and cells, stripping cells, escaping names for LaTeX,
    tagging control runs, reading times and indenting blocks. Each
    regular-expression substitution is written out as the scan it
    performs. */
module ReportText {
  import opened Wrappers

  // ----- Splitting -------------------------------------------------------

  /** `s.split(sep)`: the pieces between the occurrences of `sep`, found
      left to right without overlap. */
  function Split(s: string, sep: string): (r: seq<string>)
    requires |sep| > 0
    ensures |r| > 0
    decreases |s|
  {
    if |s| == 0 then [""]
    else if sep <= s then [""] + Split(s[|sep|..], sep)
    else
      var rest := Split(s[1..], sep);
      [[s[0]] + rest[0]] + rest[1..]
  }

  /** `sep.join(xs)`. */
  function Join(xs: seq<string>, sep: string): string
    requires |xs| > 0
  {
    if |xs| == 1 then xs[0] else xs[0] + sep + Join(xs[1..], sep)
  }

  /** Joining the pieces with the separator gives back the string. */
  lemma {:induction false} SplitJoin(s: string, sep: string)
    requires |sep| > 0
    ensures Join(Split(s, sep), sep) == s
    decreases |s|
  {
    if |s| == 0 {
    } else if sep <= s {
      var rest := Split(s[|sep|..], sep);
      assert Split(s, sep) == [""] + rest;
      SplitJoin(s[|sep|..], sep);
      assert ([""] + rest)[1..] == rest;
      assert Join([""] + rest, sep) == "" + sep + Join(rest, sep);
      assert s == sep + s[|sep|..];
    } else {
      var rest := Split(s[1..], sep);
      assert Split(s, sep) == [[s[0]] + rest[0]] + rest[1..];
      SplitJoin(s[1..], sep);
      JoinCons(s[0], rest, sep);
      assert s == [s[0]] + s[1..];
    }
  }

  /** A character in front of the first piece is in front of the joined
      text. */
  lemma JoinCons(c: char, xs: seq<string>, sep: string)
    requires |xs| > 0
    ensures Join([[c] + xs[0]] + xs[1..], sep) == [c] + Join(xs, sep)
  {
    var r := [[c] + xs[0]] + xs[1..];
    if |xs| > 1 {
      assert r[1..] == xs[1..];
    }
  }

  /** With a one-character separator no piece contains it. */
  lemma {:induction false} SplitPiecesFree(s: string, c: char)
    ensures forall p :: p in Split(s, [c]) ==> c !in p
    decreases |s|
  {
    if |s| > 0 {
      if [c] <= s {
        SplitPiecesFree(s[|[c]|..], c);
      } else {
        SplitPiecesFree(s[1..], c);
        var rest := Split(s[1..], [c]);
        assert rest[0] in rest;
        assert forall p :: p in rest[1..] ==> p in rest;
      }
    }
  }

  /** The non-empty strings of `xs`, in order. */
  function NonEmpty(xs: seq<string>): (r: seq<string>)
    ensures forall p :: p in r ==> p != "" && p in xs
    ensures forall p :: p in xs && p != "" ==> p in r
  {
    if |xs| == 0 then []
    else (if xs[0] == "" then [] else [xs[0]]) + NonEmpty(xs[1..])
  }

  function Concat(xs: seq<string>): string {
    if |xs| == 0 then "" else xs[0] + Concat(xs[1..])
  }

  /** Dropping empty strings keeps the others in order: the text they
      spell out is the same. */
  lemma {:induction false} NonEmptyKeepsText(xs: seq<string>)
    ensures Concat(NonEmpty(xs)) == Concat(xs)
    decreases |xs|
  {
    if |xs| > 0 {
      NonEmptyKeepsText(xs[1..]);
      var head := if xs[0] == "" then [] else [xs[0]];
      ConcatAppend(head, NonEmpty(xs[1..]));
    }
  }

  lemma {:induction false} ConcatAppend(xs: seq<string>, ys: seq<string>)
    ensures Concat(xs + ys) == Concat(xs) + Concat(ys)
    decreases |xs|
  {
    if |xs| > 0 {
      assert (xs + ys)[1..] == xs[1..] + ys;
      ConcatAppend(xs[1..], ys);
    } else {
      assert xs + ys == ys;
    }
  }

  /** The row separator of a LaTeX table, two backslashes. */
  const RowSeparator: string := "\\\\"

  /** `split_rows`: the table's rows, empty pieces dropped. */
  function SplitRows(table: string): (r: seq<string>)
    ensures forall p :: p in r <==> p in Split(table, RowSeparator) && p != ""
    ensures Concat(r) == Concat(Split(table, RowSeparator))
  {
    NonEmptyKeepsText(Split(table, RowSeparator));
    NonEmpty(Split(table, RowSeparator))
  }

  // ----- Stripping -------------------------------------------------------

  /** `str.isspace` for one character. */
  predicate IsSpace(c: char) {
    c in Spaces
  }

  const Spaces: set<char> :=
    {'\t', '\n', '\U{B}', '\U{C}', '\r', '\U{1C}', '\U{1D}', '\U{1E}', '\U{1F}', ' ',
     '\U{85}', '\U{A0}', '\U{1680}', '\U{2000}', '\U{2001}', '\U{2002}', '\U{2003}',
     '\U{2004}', '\U{2005}', '\U{2006}', '\U{2007}', '\U{2008}', '\U{2009}', '\U{200A}',
     '\U{2028}', '\U{2029}', '\U{202F}', '\U{205F}', '\U{3000}'}

  /** The first position from `i` on that is not whitespace. */
  function SkipSpaces(s: string, i: nat): (n: nat)
    requires i <= |s|
    ensures i <= n <= |s|
    ensures forall j :: i <= j < n ==> IsSpace(s[j])
    ensures n < |s| ==> !IsSpace(s[n])
    decreases |s| - i
  {
    if i < |s| && IsSpace(s[i]) then SkipSpaces(s, i + 1) else i
  }

  /** The end of `s[lo..e]` without its trailing whitespace. */
  function TrimEnd(s: string, lo: nat, e: nat): (n: nat)
    requires lo <= e <= |s|
    ensures lo <= n <= e
    ensures forall j :: n <= j < e ==> IsSpace(s[j])
    ensures lo < n ==> !IsSpace(s[n - 1])
    decreases e - lo
  {
    if lo < e && IsSpace(s[e - 1]) then TrimEnd(s, lo, e - 1) else e
  }

  /** `str.strip()`: the string without its leading and trailing
      whitespace. */
  function Strip(s: string): (r: string)
    ensures exists i :: StrippedAt(s, r, i)
    ensures |r| > 0 ==> !IsSpace(r[0]) && !IsSpace(r[|r| - 1])
  {
    var i := SkipSpaces(s, 0);
    var e := TrimEnd(s, i, |s|);
    assert StrippedAt(s, s[i..e], i);
    s[i..e]
  }

  /** `r` is `s` from position `i` on with whitespace only around it. */
  predicate StrippedAt(s: string, r: string, i: int) {
    0 <= i <= |s| - |r| && r == s[i..i + |r|] &&
    (forall j :: 0 <= j < i ==> IsSpace(s[j])) &&
    (forall j :: i + |r| <= j < |s| ==> IsSpace(s[j]))
  }

  /** Stripping twice is stripping once. */
  lemma StripIdempotent(s: string)
    ensures Strip(Strip(s)) == Strip(s)
  {
    var r := Strip(s);
    assert SkipSpaces(r, 0) == 0;
    assert TrimEnd(r, 0, |r|) == |r|;
    assert r[0..|r|] == r;
  }

  // ----- Escaping --------------------------------------------------------

  /** `regex.sub(c, with, s)` for a pattern that is one plain character. */
  function ReplaceChar(s: string, c: char, with: string): (r: string)
    ensures c !in with ==> c !in r
    ensures forall d :: d != c && d !in with ==> (d in r <==> d in s)
    decreases |s|
  {
    if |s| == 0 then ""
    else (if s[0] == c then with else [s[0]]) + ReplaceChar(s[1..], c, with)
  }

  lemma {:induction false} ReplaceAppend(x: string, y: string, c: char, with: string)
    ensures ReplaceChar(x + y, c, with) == ReplaceChar(x, c, with) + ReplaceChar(y, c, with)
    decreases |x|
  {
    if |x| == 0 {
      assert x + y == y;
    } else {
      assert (x + y)[0] == x[0] && (x + y)[1..] == x[1..] + y;
      ReplaceAppend(x[1..], y, c, with);
    }
  }

  const EscapedUnderscore: string := "\\_"
  const EscapedCaret: string := "\\^{}"

  /** How one character is escaped. */
  function EscapeChar(ch: char): string {
    if ch == '_' then EscapedUnderscore else if ch == '^' then EscapedCaret else [ch]
  }

  /** Escaping character by character. */
  function EscapeEach(s: string): string
    decreases |s|
  {
    if |s| == 0 then "" else EscapeChar(s[0]) + EscapeEach(s[1..])
  }

  /** The two passes escape every character on its own: the first pass
      adds no caret and the second no underscore. */
  lemma {:induction false} EscapePassesPerChar(s: string)
    ensures ReplaceChar(ReplaceChar(s, '_', EscapedUnderscore), '^', EscapedCaret) == EscapeEach(s)
    decreases |s|
  {
    if |s| > 0 {
      var head := if s[0] == '_' then EscapedUnderscore else [s[0]];
      var tail := ReplaceChar(s[1..], '_', EscapedUnderscore);
      assert ReplaceChar(s, '_', EscapedUnderscore) == head + tail;
      ReplaceAppend(head, tail, '^', EscapedCaret);
      EscapePassesPerChar(s[1..]);
      if s[0] == '_' {
        assert ReplaceChar(head, '^', EscapedCaret) == EscapedUnderscore by {
          assert head[1..][1..] == "";
        }
      } else {
        assert ReplaceChar(head, '^', EscapedCaret) == EscapeChar(s[0]) by {
          assert head[1..] == "";
        }
      }
    }
  }

  /** `escape`: every `_` becomes `\_`, then every `^` becomes `\^{}`. */
  function Escape(s: string): (r: string)
    ensures r == EscapeEach(s)
    ensures '_' in r ==> '\\' in r
  {
    EscapePassesPerChar(s);
    EscapedNoBareUnderscore(s);
    ReplaceChar(ReplaceChar(s, '_', EscapedUnderscore), '^', EscapedCaret)
  }

  lemma {:induction false} EscapedNoBareUnderscore(s: string)
    ensures '_' in EscapeEach(s) ==> '\\' in EscapeEach(s)
    decreases |s|
  {
    if |s| > 0 {
      EscapedNoBareUnderscore(s[1..]);
      assert EscapeEach(s) == EscapeChar(s[0]) + EscapeEach(s[1..]);
      if s[0] == '_' || s[0] == '^' {
        assert EscapeEach(s)[0] == '\\';
      }
    }
  }

  /** Reading an escaped name back. */
  function Unescape(t: string): string
    decreases |t|
  {
    if |t| == 0 then ""
    else if |t| >= 2 && t[0] == '\\' && t[1] == '_' then "_" + Unescape(t[2..])
    else if |t| >= 4 && t[0] == '\\' && t[1] == '^' && t[2] == '{' && t[3] == '}' then "^" + Unescape(t[4..])
    else [t[0]] + Unescape(t[1..])
  }

  /** An escaped string never starts with `_` or `^`. */
  lemma EscapeHead(s: string)
    ensures |EscapeEach(s)| > 0 ==> EscapeEach(s)[0] != '_' && EscapeEach(s)[0] != '^'
  {
    if |s| > 0 {
      assert EscapeEach(s) == EscapeChar(s[0]) + EscapeEach(s[1..]);
    }
  }

  /** Escaping loses nothing. */
  lemma {:induction false} UnescapeEscape(s: string)
    ensures Unescape(EscapeEach(s)) == s
    decreases |s|
  {
    if |s| > 0 {
      EscapeHead(s[1..]);
      UnescapeHead(s[0], EscapeEach(s[1..]));
      UnescapeEscape(s[1..]);
      assert s == [s[0]] + s[1..];
    }
  }

  /** One escaped character in front of text that does not start with
      `_` or `^` reads back as that character. */
  lemma UnescapeHead(c: char, rest: string)
    requires |rest| > 0 ==> rest[0] != '_' && rest[0] != '^'
    ensures Unescape(EscapeChar(c) + rest) == [c] + Unescape(rest)
  {
    var t := EscapeChar(c) + rest;
    if c == '_' {
      assert t[0] == '\\' && t[1] == '_' && t[2..] == rest;
    } else if c == '^' {
      assert t[0] == '\\' && t[1] == '^' && t[2] == '{' && t[3] == '}' && t[4..] == rest;
    } else {
      assert t[0] == c && t[1..] == rest;
      if |rest| > 0 {
        assert t[1] == rest[0];
      }
    }
  }

  /** Distinct names stay distinct when escaped. */
  lemma EscapeInjective(a: string, b: string)
    requires Escape(a) == Escape(b)
    ensures a == b
  {
    UnescapeEscape(a);
    UnescapeEscape(b);
  }

  // ----- Control tag -----------------------------------------------------

  /** `[0-9]`. */
  predicate IsDigit(c: char) {
    '0' <= c <= '9'
  }

  /** The number of digits that end `s`. */
  function DigitRun(s: string): (n: nat)
    ensures n <= |s|
    ensures forall j :: |s| - n <= j < |s| ==> IsDigit(s[j])
    ensures n < |s| ==> !IsDigit(s[|s| - n - 1])
    decreases |s|
  {
    if |s| == 0 || !IsDigit(s[|s| - 1]) then 0 else 1 + DigitRun(s[..|s| - 1])
  }

  /** `s` ends in `_` and one or more digits, the `_` at position `k`. */
  predicate IndexedAt(s: string, k: int) {
    0 <= k && k + 1 < |s| && s[k] == '_' && forall j :: k < j < |s| ==> IsDigit(s[j])
  }

  /** A run of exactly `n` digits ends `s`. */
  lemma {:induction false} DigitRunExactly(s: string, n: nat)
    requires n <= |s|
    requires forall j :: |s| - n <= j < |s| ==> IsDigit(s[j])
    requires n == |s| || !IsDigit(s[|s| - n - 1])
    ensures DigitRun(s) == n
    decreases n
  {
    if n > 0 {
      var t := s[..|s| - 1];
      assert forall j :: |t| - (n - 1) <= j < |t| ==> t[j] == s[j];
      DigitRunExactly(t, n - 1);
    }
  }

  lemma DigitRunOf(s: string, k: int)
    requires IndexedAt(s, k)
    ensures DigitRun(s) == |s| - k - 1
  {
    DigitRunExactly(s, |s| - k - 1);
  }

  /** Where the trailing `_<digits>` starts, if there is one. */
  function IndexStart(s: string): (r: Option<nat>)
    ensures forall k :: IndexedAt(s, k) <==> r == Some(k)
  {
    var d := DigitRun(s);
    assert forall k :: IndexedAt(s, k) ==> k == |s| - d - 1 by {
      forall k | IndexedAt(s, k)
        ensures k == |s| - d - 1
      {
        DigitRunOf(s, k);
      }
    }
    if 0 < d < |s| && s[|s| - d - 1] == '_' then
      assert IndexedAt(s, |s| - d - 1);
      Some(|s| - d - 1)
    else
      assert forall k :: IndexedAt(s, k) ==> k == |s| - d - 1;
      None
  }

  /** `$` matches at the end and before a final newline: the text the
      pattern sees, and the newline after it. */
  function Body(s: string): string {
    if |s| > 0 && s[|s| - 1] == '\n' then s[..|s| - 1] else s
  }

  function FinalNewline(s: string): (r: string)
    ensures Body(s) + r == s
  {
    if |s| > 0 && s[|s| - 1] == '\n' then "\n" else ""
  }

  /** `add_C_tag`: a trailing `_<digits>` becomes `_C_<digits>`; any other
      string is left alone. */
  function AddCTag(s: string): (r: string)
    ensures (exists k :: IndexedAt(Body(s), k)) <==> r != s
    ensures forall k :: IndexedAt(Body(s), k) ==>
              r == Body(s)[..k] + "_C" + Body(s)[k..] + FinalNewline(s)
  {
    var body := Body(s);
    match IndexStart(body)
    case None => s
    case Some(k) =>
      var r := body[..k] + "_C" + body[k..] + FinalNewline(s);
      assert |r| == |s| + 2;
      r
  }

  /** The tag goes right before the index, which stays the trailing one:
      removing the two characters gives the name back. */
  lemma AddCTagKeepsIndex(s: string, k: nat)
    requires IndexedAt(Body(s), k)
    ensures var r := AddCTag(s);
            IndexedAt(Body(r), k + 2) && r[k..k + 2] == "_C" && r[..k] + r[k + 2..] == s
  {
    var body := Body(s);
    var rb := body[..k] + "_C" + body[k..];
    TagShiftsIndex(body, k);
    BodyKeeps(rb, s);
    TagRemoved(body, k, FinalNewline(s));
  }

  lemma TagShiftsIndex(body: string, k: nat)
    requires IndexedAt(body, k)
    ensures IndexedAt(body[..k] + "_C" + body[k..], k + 2)
  {
    var rb := body[..k] + "_C" + body[k..];
    assert forall j :: k + 2 <= j < |rb| ==> rb[j] == body[j - 2];
  }

  /** Text ending in something other than a newline, followed by the
      final newline of `s`, has that text as its body. */
  lemma BodyKeeps(x: string, s: string)
    requires |x| > 0 && x[|x| - 1] != '\n'
    ensures Body(x + FinalNewline(s)) == x
  {
    if FinalNewline(s) == "" {
      assert x + FinalNewline(s) == x;
    } else {
      assert (x + FinalNewline(s))[..|x|] == x;
    }
  }

  lemma TagRemoved(body: string, k: nat, nl: string)
    requires k <= |body|
    ensures var r := body[..k] + "_C" + body[k..] + nl;
            r[k..k + 2] == "_C" && r[..k] + r[k + 2..] == body + nl
  {
    var r := body[..k] + "_C" + body[k..] + nl;
    assert r[..k] == body[..k];
    assert r[k + 2..] == body[k..] + nl;
    assert body[..k] + (body[k..] + nl) == body + nl;
  }

  // ----- Times -----------------------------------------------------------

  /** The number of digits starting at position `i`. */
  function DigitsFrom(s: string, i: nat): (n: nat)
    requires i <= |s|
    ensures i + n <= |s|
    ensures forall j :: i <= j < i + n ==> IsDigit(s[j])
    ensures i + n < |s| ==> !IsDigit(s[i + n])
    decreases |s| - i
  {
    if i == |s| || !IsDigit(s[i]) then 0 else 1 + DigitsFrom(s, i + 1)
  }

  /** Where `([0-9]+\.[0-9]+) s` matched at `i` ends its group. Taking
      the longest digit runs loses nothing: a shorter run would be
      followed by a digit, not by `.` or a space. */
  function MatchAt(s: string, i: nat): Option<nat>
    requires i <= |s|
  {
    var a := DigitsFrom(s, i);
    var j := i + a;
    if a == 0 || j >= |s| || s[j] != '.' then None
    else
      var b := DigitsFrom(s, j + 1);
      var k := j + 1 + b;
      if b == 0 || k + 2 > |s| || s[k] != ' ' || s[k + 1] != 's' then None else Some(k)
  }

  /** `r` is digits, a point, digits: the point at position `d`. */
  predicate DecimalWith(r: string, d: int) {
    0 < d < |r| - 1 && r[d] == '.' && forall j :: 0 <= j < |r| && j != d ==> IsDigit(r[j])
  }

  ghost predicate IsDecimal(r: string) {
    exists d :: DecimalWith(r, d)
  }

  lemma MatchIsDecimal(s: string, i: nat)
    requires i <= |s| && MatchAt(s, i).Some?
    ensures i < MatchAt(s, i).value <= |s| && IsDecimal(s[i..MatchAt(s, i).value])
  {
    var a := DigitsFrom(s, i);
    assert DecimalWith(s[i..MatchAt(s, i).value], a);
  }

  /** The leftmost match at or after `i`: its start and the end of its
      group. */
  function SearchFrom(s: string, i: nat): (r: Option<(nat, nat)>)
    requires i <= |s|
    ensures r.Some? ==> i <= r.value.0 <= |s| && MatchAt(s, r.value.0) == Some(r.value.1)
    ensures r.Some? ==> forall j :: i <= j < r.value.0 ==> MatchAt(s, j).None?
    ensures r.None? ==> forall j :: i <= j <= |s| ==> MatchAt(s, j).None?
    decreases |s| - i
  {
    match MatchAt(s, i)
    case Some(k) => Some((i, k))
    case None => if i == |s| then None else SearchFrom(s, i + 1)
  }

  const Unknown: string := "???"

  /** `get_time_val`: the number of the first `<digits>.<digits> s` in
      the text, or `???`. */
  function GetTimeVal(s: string): (r: string)
    ensures r == Unknown <==> forall j :: 0 <= j <= |s| ==> MatchAt(s, j).None?
    ensures r != Unknown ==> IsDecimal(r)
  {
    match SearchFrom(s, 0)
    case Some((i, k)) =>
      MatchIsDecimal(s, i);
      var r := s[i..k];
      assert IsDigit(r[0]) by {
        var d :| DecimalWith(r, d);
      }
      r
    case None => Unknown
  }

  /** A run of exactly `n` digits starts at `i`. */
  lemma {:induction false} DigitsExactly(s: string, i: nat, n: nat)
    requires i + n <= |s|
    requires forall j :: i <= j < i + n ==> IsDigit(s[j])
    requires i + n == |s| || !IsDigit(s[i + n])
    ensures DigitsFrom(s, i) == n
    decreases n
  {
    if n > 0 {
      DigitsExactly(s, i + 1, n - 1);
    }
  }

  /** The time of a cell `7.010 s`, behind any text without digits, is
      the number. */
  lemma GetTimeValOfCell(pre: string, x: string, d: nat)
    requires DecimalWith(x, d)
    requires forall j :: 0 <= j < |pre| ==> !IsDigit(pre[j])
    ensures GetTimeVal(pre + x + " s") == x
  {
    var s := pre + x + " s";
    var p := |pre|;
    forall j | 0 <= j < p
      ensures MatchAt(s, j).None?
    {
      assert s[j] == pre[j];
      NoDigitNoMatch(s, j);
    }
    CellMatch(pre, x, d);
    SearchFinds(s, p, p + |x|);
    assert s[p..p + |x|] == x;
  }

  lemma NoDigitNoMatch(s: string, j: nat)
    requires j < |s| && !IsDigit(s[j])
    ensures MatchAt(s, j).None?
  {
    DigitsExactly(s, j, 0);
  }

  /** The pattern matches at the start of the number. */
  lemma CellMatch(pre: string, x: string, d: nat)
    requires DecimalWith(x, d)
    ensures MatchAt(pre + x + " s", |pre|) == Some(|pre| + |x|)
  {
    var s := pre + x + " s";
    var p := |pre|;
    assert forall j :: 0 <= j < |x| ==> s[p + j] == x[j];
    assert s[p + |x|] == ' ' && s[p + |x| + 1] == 's';
    DigitsExactly(s, p, d);
    assert s[p + d] == '.';
    DigitsExactly(s, p + d + 1, |x| - d - 1);
  }

  /** The search stops at the first position that matches. */
  lemma SearchFinds(s: string, p: nat, k: nat)
    requires p <= |s| && MatchAt(s, p) == Some(k)
    requires forall j :: 0 <= j < p ==> MatchAt(s, j).None?
    ensures SearchFrom(s, 0) == Some((p, k))
  {
    var r := SearchFrom(s, 0);
  }

  // ----- Indentation -----------------------------------------------------

  const Tab: string := "    "

  /** Every newline followed by four spaces. */
  function IndentAfterNewlines(s: string): string
    decreases |s|
  {
    if |s| == 0 then ""
    else (if s[0] == '\n' then "\n" + Tab else [s[0]]) + IndentAfterNewlines(s[1..])
  }

  /** `tabbed`: four spaces wherever a line starts, which with a
      multi-line `^` includes the end after a final newline. */
  function Tabbed(s: string): (r: string)
    ensures Split(r, "\n") == Indented(Split(s, "\n"))
  {
    TabbedLines(s);
    Tab + IndentAfterNewlines(s)
  }

  /** Each line with four spaces in front. */
  function Indented(lines: seq<string>): (r: seq<string>)
    ensures |r| == |lines|
    ensures forall i :: 0 <= i < |lines| ==> r[i] == Tab + lines[i]
  {
    seq(|lines|, i requires 0 <= i < |lines| => Tab + lines[i])
  }

  /** A character other than a newline joins the first line. */
  lemma SplitCons(c: char, x: string)
    requires c != '\n'
    ensures Split([c] + x, "\n") == [[c] + Split(x, "\n")[0]] + Split(x, "\n")[1..]
  {
    assert ([c] + x)[1..] == x;
    assert !("\n" <= [c] + x) by {
      assert ([c] + x)[0] == c;
    }
  }

  /** Text without newlines in front joins the first line. */
  lemma {:induction false} SplitPrefix(p: string, x: string)
    requires forall j :: 0 <= j < |p| ==> p[j] != '\n'
    ensures Split(p + x, "\n") == [p + Split(x, "\n")[0]] + Split(x, "\n")[1..]
    decreases |p|
  {
    if |p| > 0 {
      var q := p[1..];
      var l := Split(x, "\n");
      SplitPrefix(q, x);
      assert p + x == [p[0]] + (q + x);
      SplitCons(p[0], q + x);
      assert Split(q + x, "\n")[0] == q + l[0];
      assert Split(q + x, "\n")[1..] == l[1..];
      assert [p[0]] + (q + l[0]) == p + l[0];
    } else {
      var l := Split(x, "\n");
      assert p + x == x && p + l[0] == l[0];
      assert [l[0]] + l[1..] == l;
    }
  }

  lemma SplitTab(x: string)
    ensures Split(Tab + x, "\n") == [Tab + Split(x, "\n")[0]] + Split(x, "\n")[1..]
  {
    SplitPrefix(Tab, x);
  }

  lemma {:induction false} IndentSplit(s: string)
    ensures Split(IndentAfterNewlines(s), "\n") ==
              [Split(s, "\n")[0]] + Indented(Split(s, "\n")[1..])
    decreases |s|
  {
    if |s| > 0 {
      var t := IndentAfterNewlines(s[1..]);
      var ls := Split(s[1..], "\n");
      IndentSplit(s[1..]);
      assert Split(t, "\n") == [ls[0]] + Indented(ls[1..]);
      if s[0] == '\n' {
        var u := "\n" + Tab + t;
        assert IndentAfterNewlines(s) == u;
        assert "\n" <= u && u[1..] == Tab + t;
        SplitTab(t);
        assert Split(s, "\n") == [""] + ls;
        assert Split(u, "\n") == [""] + Indented(ls);
      } else {
        assert IndentAfterNewlines(s) == [s[0]] + t;
        SplitCons(s[0], t);
        assert Split(s, "\n") == [[s[0]] + ls[0]] + ls[1..];
      }
    }
  }

  lemma TabbedLines(s: string)
    ensures Split(Tab + IndentAfterNewlines(s), "\n") == Indented(Split(s, "\n"))
  {
    var t := IndentAfterNewlines(s);
    IndentSplit(s);
    SplitTab(t);
  }
}
