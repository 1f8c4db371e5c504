/** The text pair behind the configuration file: `json_escape`, which prints a string into a buffer, and
    `json_get_str`, which finds a key by its quoted name and scans the string behind it. A string stands for
    the characters before its NUL, and a pointer into one for the characters from there on. */
module JsonText {
  import opened Wrappers

  const NUL := '\0'
  const Q := "\""
  const SEARCH_MAX := 63

  predicate NeedsBackslash(c: char) {
    c == '"' || c == '\\'
  }

  /** What the printer writes of `src` when `room` octets of the buffer are left, the NUL's included. */
  function Escaped(src: string, room: nat): string {
    if src == "" || room <= 2 then ""
    else if NeedsBackslash(src[0]) then ['\\', src[0]] + Escaped(src[1..], room - 2)
    else if src[0] < ' ' then Escaped(src[1..], room)
    else [src[0]] + Escaped(src[1..], room - 1)
  }

  /** The text without its control characters. */
  function Clean(src: string): string {
    if src == "" then "" else (if src[0] < ' ' then "" else [src[0]]) + Clean(src[1..])
  }

  /** How many octets printing takes. */
  function Cost(text: string): nat {
    if text == "" then 0 else (if NeedsBackslash(text[0]) then 2 else 1) + Cost(text[1..])
  }

  /** How many characters of a clean text are printed: a character is as long as two more octets and the NUL fit. */
  function Fitting(text: string, room: nat): (n: nat)
    ensures n <= |text|
  {
    if text == "" || room <= 2 then 0
    else 1 + Fitting(text[1..], if NeedsBackslash(text[0]) then room - 2 else room - 1)
  }

  /** The part of `src` that reaches the buffer. */
  function Kept(src: string, room: nat): string {
    Clean(src)[..Fitting(Clean(src), room)]
  }

  /** It is the longest prefix of the clean text of which every character found room for an escape and the NUL. */
  lemma {:induction false} FittingIsLongest(text: string, room: nat, n: nat)
    requires n <= |text|
    ensures n <= Fitting(text, room) <==> n == 0 || Cost(text[..n - 1]) + 2 < room
  {
    if n == 0 {
    } else if n == 1 || room <= 2 {
      assert Cost(text[..n - 1]) >= 0;
    } else {
      FittingIsLongest(text[1..], if NeedsBackslash(text[0]) then room - 2 else room - 1, n - 1);
      assert text[..n - 1][1..] == text[1..][..n - 2];
    }
  }

  /** A text survives whole exactly when the buffer has room for all but its last character, an escape and the
      NUL. */
  lemma WholeTextIsKept(src: string, room: nat)
    ensures Kept(src, room) == Clean(src) <==>
            Clean(src) == "" || Cost(Clean(src)[..|Clean(src)| - 1]) + 2 < room
  {
    var text := Clean(src);
    FittingIsLongest(text, room, |text|);
    assert text[..|text|] == text;
  }

  /** So a text can lose its last character although its printed form and the NUL would have fitted. */
  lemma LastCharacterIsLost()
    ensures Cost("a") + 1 <= 2 && Kept("a", 2) == ""
  {
    assert Clean("a") == "a";
  }

  /** The printed text and the NUL stay within the buffer. */
  lemma {:induction false} EscapedFits(src: string, room: nat)
    ensures 0 < room ==> |Escaped(src, room)| < room
  {
    if src == "" || room <= 2 {
    } else {
      EscapedFits(src[1..], if NeedsBackslash(src[0]) then room - 2 else if src[0] < ' ' then room else room - 1);
    }
  }

  /** The printer's step. */
  lemma EscapedUnfold(src: string, room: nat)
    requires src != "" && room > 2
    ensures Escaped(src, room) ==
      if NeedsBackslash(src[0]) then ['\\', src[0]] + Escaped(src[1..], room - 2)
      else if src[0] < ' ' then Escaped(src[1..], room)
      else [src[0]] + Escaped(src[1..], room - 1)
  {
  }

  /** The same with whatever stands behind the printed text. */
  lemma EscapedStep(src: string, room: nat, behind: string)
    requires src != "" && room > 2
    ensures Escaped(src, room) + behind ==
      if NeedsBackslash(src[0]) then ['\\', src[0]] + (Escaped(src[1..], room - 2) + behind)
      else if src[0] < ' ' then Escaped(src[1..], room) + behind
      else [src[0]] + (Escaped(src[1..], room - 1) + behind)
  {
  }

  lemma EscapedEnd(src: string, room: nat)
    requires src == "" || room <= 2
    ensures Escaped(src, room) == ""
  {
  }

  /** `now` is `was` with the first `n` characters of `text` laid over it. */
  ghost predicate Laid(now: string, text: string, was: string, n: nat) {
    && |now| == |was| > |text| >= n
    && (forall k :: 0 <= k < n ==> now[k] == text[k])
    && (forall k :: n <= k < |was| ==> now[k] == was[k])
  }

  lemma LaidWhole(now: string, text: string, was: string)
    requires |now| == |was| > |text| && now[|text|] == NUL
    requires forall k :: 0 <= k < |text| ==> now[k] == text[k]
    requires forall k :: |text| < k < |was| ==> now[k] == was[k]
    ensures now == text + [NUL] + was[|text| + 1..]
  {
  }

  lemma TakeNext(text: string, at: nat, piece: string, more: string)
    requires at <= |text| && text[at..] == piece + more
    ensures at + |piece| <= |text| && text[at + |piece|..] == more
    ensures forall k :: 0 <= k < |piece| ==> text[at + k] == piece[k]
  {
    assert |text[at..]| == |piece| + |more|;
    forall k | 0 <= k < |piece| ensures text[at + k] == piece[k] {
      assert text[at..][k] == piece[k];
    }
    assert text[at + |piece|..] == text[at..][|piece|..];
  }

  /** One more character of the text, written where it belongs. */
  lemma LayNext(now: string, text: string, was: string, n: nat)
    requires Laid(now, text, was, n) && n < |text|
    ensures Laid(now[n := text[n]], text, was, n + 1)
  {
  }

  /** Nothing is laid yet. */
  lemma LayNothing(text: string, was: string)
    requires |text| < |was|
    ensures Laid(was, text, was, 0)
  {
  }

  /** Writes one character of `text` into its place. */
  method Lay(dst: array<char>, n: nat, c: char, ghost text: string, ghost was: string)
    requires Laid(dst[..], text, was, n) && n < |text| && text[n] == c
    modifies dst
    ensures Laid(dst[..], text, was, n + 1)
  {
    LayNext(dst[..], text, was, n);
    dst[n] := c;
  }

  /** Closes the text with its NUL. */
  method LayNul(dst: array<char>, ghost text: string, ghost was: string, n: nat)
    requires Laid(dst[..], text, was, n) && n == |text|
    modifies dst
    ensures dst[..] == text + [NUL] + was[|text| + 1..]
  {
    dst[n] := NUL;
    LaidWhole(dst[..], text, was);
  }

  /** The printing loop. */
  method EscapeText(dst: array<char>, src: string, dstLen: nat)
    requires 0 < dstLen <= dst.Length
    modifies dst
    ensures var text := Escaped(src, dstLen);
      |text| < dstLen && dst[..] == text + [NUL] + old(dst[|text| + 1..])
  {
    hide Escaped, Laid;
    var p, di := src, 0;
    ghost var was, text := dst[..], Escaped(src, dstLen);
    EscapedFits(src, dstLen);
    LayNothing(text, was);
    while p != "" && di + 2 < dstLen
      invariant di <= |text| && text[di..] == Escaped(p, dstLen - di)
      invariant Laid(dst[..], text, was, di)
      decreases |p|
    {
      EscapedUnfold(p, dstLen - di);
      var c := p[0];
      p := p[1..];
      if NeedsBackslash(c) {
        TakeNext(text, di, ['\\', c], Escaped(p, dstLen - di - 2));
        Lay(dst, di, '\\', text, was);
        di := di + 1;
      } else if c < ' ' {
        continue;
      } else {
        TakeNext(text, di, [c], Escaped(p, dstLen - di - 1));
      }
      Lay(dst, di, c, text, was);
      di := di + 1;
    }
    EscapedEnd(p, dstLen - di);
    LayNul(dst, text, was, di);
  }

  /** `json_escape`: `dst` receives the escaped text and a NUL, and nothing behind them. */
  method Escape(dst: array?<char>, src: Option<string>, dstLen: nat)
    requires dst != null ==> dstLen <= dst.Length
    modifies dst
    ensures dst != null && dstLen > 0 ==>
              var text := if src == None then "" else Escaped(src.value, dstLen);
              |text| < dstLen && dst[..] == text + [NUL] + old(dst[|text| + 1..])
    ensures dst != null && dstLen == 0 ==> dst[..] == old(dst[..])
  {
    if dst == null || dstLen == 0 {
      return;
    }
    if src == None {
      dst[0] := NUL;
      return;
    }
    EscapeText(dst, src.value, dstLen);
  }

  /** One character at a time on paper: a double quote or a backslash gets a backslash in front of it, characters below
      the space are dropped, all others stay. */
  lemma {:induction false} EscapedExactly(src: string, c: char, room: nat)
    requires 2 * |src| + 2 < room
    ensures Escaped([c] + src, room) ==
            (if c == '"' then "\\\"" else if c == '\\' then "\\\\" else if c as int < 32 then "" else [c])
            + Escaped(src, room)
    ensures Escaped("", room) == ""
  {
    assert ([c] + src)[1..] == src;
    RoomIsEnough(src, room, room - 1);
    RoomIsEnough(src, room, room - 2);
  }

  lemma {:induction false} RoomIsEnough(src: string, room: nat, other: nat)
    requires 2 * |src| < room && 2 * |src| < other
    ensures Escaped(src, room) == Escaped(src, other)
  {
    if src == "" {
    } else if NeedsBackslash(src[0]) {
      RoomIsEnough(src[1..], room - 2, other - 2);
    } else if src[0] < ' ' {
      RoomIsEnough(src[1..], room, other);
    } else {
      RoomIsEnough(src[1..], room - 1, other - 1);
    }
  }

  /** What the scan copies out of `s`, which starts behind an opening quote, into `room` octets, the NUL's
      included, and where it stops. */
  datatype Scanned = Scanned(text: string, rest: string)

  function Scan(s: string, room: nat): Scanned {
    if s == "" || s[0] == '"' || room <= 1 then Scanned("", s)
    else
      var p := if s[0] == '\\' && |s| > 1 then s[1..] else s;
      var more := Scan(p[1..], room - 1);
      more.(text := [p[0]] + more.text)
  }

  /** One printed character and what follows it, scanned. */
  lemma ScanStep(c: char, s: string, room: nat)
    requires 1 < room && c >= ' '
    ensures var r := Scan((if NeedsBackslash(c) then ['\\', c] else [c]) + s, room);
      r == Scan(s, room - 1).(text := [c] + Scan(s, room - 1).text)
  {
    if NeedsBackslash(c) {
      assert (['\\', c] + s)[1..] == [c] + s;
    }
    assert ([c] + s)[1..] == s;
  }

  /** Scanning what the printer wrote recovers what it kept, as much of it as the reader has room for, and with
      room enough stops at the printer's own closing quote. */
  lemma {:induction false} ScanUndoesEscape(src: string, room: nat, rest: string, outLen: nat)
    requires 0 < outLen
    ensures var r := Scan(Escaped(src, room) + (Q + rest), outLen);
      && r.text == Kept(src, room)[..Min(|Kept(src, room)|, outLen - 1)]
      && (|Kept(src, room)| < outLen ==> r.rest == Q + rest)
  {
    hide Kept, Escaped, Scan;
    if src == "" || room <= 2 {
      ScanAtEnd(src, room, rest, outLen);
    } else {
      var c := src[0];
      var left := if NeedsBackslash(c) then room - 2 else if c < ' ' then room else room - 1;
      var more, kept := Escaped(src[1..], left) + (Q + rest), Kept(src[1..], left);
      KeptStep(src, room);
      EscapedStep(src, room, Q + rest);
      if c < ' ' {
        ScanUndoesEscape(src[1..], left, rest, outLen);
      } else if outLen > 1 {
        ScanUndoesEscape(src[1..], left, rest, outLen - 1);
        ScanStep(c, more, outLen);
        PrefixStep(c, kept, outLen - 1);
      } else {
        ScanNoRoom(Escaped(src, room) + (Q + rest));
      }
    }
  }

  lemma ScanAtEnd(src: string, room: nat, rest: string, outLen: nat)
    requires src == "" || room <= 2
    ensures Scan(Escaped(src, room) + (Q + rest), outLen) == Scanned("", Q + rest) && Kept(src, room) == ""
  {
    assert Escaped(src, room) + (Q + rest) == Q + rest;
  }

  lemma PrefixStep(c: char, text: string, n: nat)
    requires 0 < n
    ensures ([c] + text)[..Min(1 + |text|, n)] == [c] + text[..Min(|text|, n - 1)]
  {
  }

  lemma ScanNoRoom(s: string)
    ensures Scan(s, 1) == Scanned("", s)
  {
  }

  lemma KeptStep(src: string, room: nat)
    requires src != "" && room > 2
    ensures Kept(src, room) ==
      if NeedsBackslash(src[0]) then [src[0]] + Kept(src[1..], room - 2)
      else if src[0] < ' ' then Kept(src[1..], room)
      else [src[0]] + Kept(src[1..], room - 1)
  {
    if src[0] < ' ' {
      assert Clean(src) == Clean(src[1..]);
    } else {
      assert Clean(src) == [src[0]] + Clean(src[1..]);
      assert Clean(src)[1..] == Clean(src[1..]);
    }
  }

  /** The library's `strstr`: the string from the first occurrence of `pattern` on. */
  function Strstr(s: string, pattern: string): Option<string> {
    if pattern <= s then Some(s) else if s == "" then None else Strstr(s[1..], pattern)
  }

  /** The quoted name the reader looks for, cut to the array it is built in. */
  function Search(key: string): string {
    var quoted := Q + key + Q;
    quoted[..Min(|quoted|, SEARCH_MAX)]
  }

  predicate IsBlank(c: char) {
    c == ' ' || c == '\t' || c == '\r' || c == '\n' || c == ':'
  }

  function SkipBlanks(s: string): string {
    if s != "" && IsBlank(s[0]) then SkipBlanks(s[1..]) else s
  }

  /** What `json_get_str` answers for an output array of `outLen` octets. */
  function GetStr(json: string, key: string, outLen: nat): Option<string> {
    match Strstr(json, Search(key))
    case None => None
    case Some(at) => Behind(at[Min(|Search(key)|, |at|)..], outLen)
  }

  /** The same once the name has been passed. */
  function Behind(s: string, outLen: nat): Option<string> {
    var p := SkipBlanks(s);
    if p != "" && p[0] == '"' then Some(Scan(p[1..], outLen).text) else None
  }

  lemma {:induction false} StrstrIsAMatch(s: string, pattern: string)
    ensures Strstr(s, pattern).Some? ==> pattern <= Strstr(s, pattern).value
  {
    if pattern <= s || s == "" {
    } else {
      StrstrIsAMatch(s[1..], pattern);
    }
  }

  /** The scan's step. */
  lemma ScanUnfold(s: string, room: nat)
    requires s != "" && s[0] != '"' && 1 < room
    ensures var p := if s[0] == '\\' && |s| > 1 then s[1..] else s;
      Scan(s, room).text == [p[0]] + Scan(p[1..], room - 1).text
  {
  }

  lemma {:induction false} ScanFits(s: string, room: nat)
    requires 0 < room
    ensures |Scan(s, room).text| < room
  {
    if s == "" || s[0] == '"' || room <= 1 {
    } else {
      ScanFits((if s[0] == '\\' && |s| > 1 then s[1..] else s)[1..], room - 1);
    }
  }

  lemma ScanEnd(s: string, room: nat)
    requires s == "" || s[0] == '"' || room <= 1
    ensures Scan(s, room).text == ""
  {
  }

  /** The loop that copies a string's characters out, up to its closing quote. */
  method CopyString(start: string, out: array<char>, outLen: nat)
    requires 0 < outLen <= out.Length
    modifies out
    ensures var text := Scan(start, outLen).text;
      |text| < outLen && out[..] == text + [NUL] + old(out[|text| + 1..])
  {
    hide Scan, Laid;
    var p, idx := start, 0;
    ghost var was, text := out[..], Scan(start, outLen).text;
    ScanFits(start, outLen);
    LayNothing(text, was);
    while p != "" && p[0] != '"' && idx + 1 < outLen
      invariant idx <= |text| && text[idx..] == Scan(p, outLen - idx).text
      invariant Laid(out[..], text, was, idx)
      decreases |p|
    {
      ScanUnfold(p, outLen - idx);
      if p[0] == '\\' && |p| > 1 {
        p := p[1..];
      }
      var c := p[0];
      p := p[1..];
      TakeNext(text, idx, [c], Scan(p, outLen - idx - 1).text);
      Lay(out, idx, c, text, was);
      idx := idx + 1;
    }
    ScanEnd(p, outLen - idx);
    LayNul(out, text, was, idx);
  }

  /** `json_get_str`: `out` is written, with its NUL, exactly when the key is found with a string behind it. */
  method GetString(json: Option<string>, key: Option<string>, out: array?<char>, outLen: nat) returns (found: bool)
    requires out != null ==> outLen <= out.Length
    modifies out
    ensures found <==> json.Some? && key.Some? && out != null && 0 < outLen &&
                       GetStr(json.value, key.value, outLen).Some?
    ensures found ==>
              var text := GetStr(json.value, key.value, outLen).value;
              |text| < outLen && out[..] == text + [NUL] + old(out[|text| + 1..])
    ensures !found && out != null ==> out[..] == old(out[..])
  {
    hide Strstr, Search, Scan;
    if json == None || key == None || out == null || outLen == 0 {
      return false;
    }
    var search := Search(key.value);
    var at := Strstr(json.value, search);
    if at == None {
      return false;
    }
    StrstrIsAMatch(json.value, search);
    var p := at.value[|search|..];
    ghost var behind := p;
    while p != "" && IsBlank(p[0])
      invariant SkipBlanks(p) == SkipBlanks(behind)
      decreases |p|
    {
      p := p[1..];
    }
    if p == "" || p[0] != '"' {
      return false;
    }
    CopyString(p[1..], out, outLen);
    return true;
  }

  /** It finds the first occurrence. */
  lemma {:induction false} StrstrIsFirst(s: string, pattern: string, before: string, behind: string)
    requires s == before + (pattern + behind)
    ensures Strstr(s, pattern).Some? && |Strstr(s, pattern).value| >= |pattern + behind|
  {
    if before == "" {
      assert pattern <= s;
    } else if pattern <= s {
    } else {
      assert s[1..] == before[1..] + (pattern + behind);
      StrstrIsFirst(s[1..], pattern, before[1..], behind);
    }
  }

  lemma {:induction false} PassBlanks(blanks: string, behind: string)
    requires forall c <- blanks :: c in " \t\r\n:"
    requires behind != "" ==> behind[0] !in " \t\r\n:"
    ensures SkipBlanks(blanks + behind) == behind
  {
    if blanks == "" {
      assert blanks + behind == behind;
    } else {
      assert (blanks + behind)[1..] == blanks[1..] + behind;
      assert blanks[0] in blanks && IsBlank(blanks[0]);
      assert forall c <- blanks[1..] :: c in blanks;
      PassBlanks(blanks[1..], behind);
    }
  }

  /** Between name and value any blanks, line ends and colons are passed over, and a value is read only behind a
      double quote. */
  lemma ValueBehindBlanks(key: string, blanks: string, behind: string, outLen: nat)
    requires |key| <= 61 && '"' !in key
    requires forall c <- blanks :: c in " \t\r\n:"
    requires behind != "" ==> behind[0] !in " \t\r\n:"
    ensures GetStr("\"" + key + "\"" + (blanks + behind), key, outLen) ==
            if behind != "" && behind[0] == '"' then Some(Scan(behind[1..], outLen).text) else None
  {
    var quoted := Q + key + Q;
    assert Search(key) == quoted;
    assert quoted <= quoted + (blanks + behind);
    assert (quoted + (blanks + behind))[|quoted|..] == blanks + behind;
    PassBlanks(blanks, behind);
  }

  /** A field of a printed object: a string printed into a buffer of `room` octets, or a number or truth value. */
  datatype Field =
    | Text(key: string, value: string, room: nat)
    | Bare(key: string, token: string)

  /** Names as the exporter uses them. */
  predicate IsKey(key: string) {
    && |key| + 2 <= SEARCH_MAX
    && '"' !in key && '\\' !in key && ':' !in key && ',' !in key
  }

  predicate IsField(f: Field) {
    IsKey(f.key) && (f.Bare? ==> '"' !in f.token)
  }

  /** A field's value and what follows it. */
  function Value(f: Field, behind: string): string {
    match f
    case Text(_, value, room) => Q + (Escaped(value, room) + (Q + behind))
    case Bare(_, token) => token + behind
  }

  /** What stands between the fields and behind the last one. */
  datatype Layout = Layout(separator: string, close: string)

  predicate IsLayout(l: Layout) {
    && l.separator != "" && l.separator[0] == ',' && '"' !in l.separator
    && '"' !in l.close
  }

  /** The object behind its opening brace. */
  function Object(fields: seq<Field>, l: Layout): string
    decreases |fields|, 1
  {
    if fields == [] then l.close
    else Q + (fields[0].key + (Q + (": " + Value(fields[0], Following(fields, l)))))
  }

  /** What follows the first field. */
  function Following(fields: seq<Field>, l: Layout): string
    requires fields != []
    decreases |fields|, 0
  {
    if |fields| == 1 then l.close else l.separator + Object(fields[1..], l)
  }

  /** The part of a text behind its last double quote, when `seen` stands before it. */
  function AfterQuotes(seen: string, text: string): string
    decreases |text|
  {
    if text == "" then seen
    else if text[0] == '"' then AfterQuotes("", text[1..])
    else AfterQuotes(seen + [text[0]], text[1..])
  }

  lemma AfterStep(seen: string, c: char, text: string)
    ensures AfterQuotes(seen, [c] + text) == if c == '"' then AfterQuotes("", text) else AfterQuotes(seen + [c], text)
  {
    assert ([c] + text)[1..] == text;
  }

  /** A string field whose printed value ends, behind its last double quote, like the name looked for: the
      reader takes the end of that value for the name. */
  predicate Hides(f: Field, key: string) {
    f.Text? && AfterQuotes("", Kept(f.value, f.room)) == key
  }

  /** Text without a double quote is passed over. */
  lemma {:induction false} PassPlain(plain: string, s: string, key: string)
    requires '"' !in plain
    ensures Strstr(plain + s, Search(key)) == Strstr(s, Search(key))
  {
    if plain == "" {
      assert plain + s == s;
    } else {
      assert (plain + s)[1..] == plain[1..] + s;
      assert Search(key)[0] == '"';
      PassPlain(plain[1..], s, key);
    }
  }

  /** Between two consecutive quotes stands the name, or nothing is found before the second one. */
  lemma PassQuoted(between: string, s: string, key: string)
    requires '"' !in between && IsKey(key)
    ensures Strstr(Q + (between + (Q + s)), Search(key)) ==
            if between == key then Some(Search(key) + s) else Strstr(Q + s, Search(key))
  {
    if between == key {
      assert Q + (between + (Q + s)) == Search(key) + s;
    } else {
      NotTheName(between, s, key);
      assert (Q + (between + (Q + s)))[1..] == between + (Q + s);
      PassPlain(between, Q + s, key);
    }
  }

  lemma NotTheName(between: string, s: string, key: string)
    requires '"' !in between && IsKey(key) && between != key
    ensures !(Search(key) <= Q + (between + (Q + s)))
  {
    var all := Q + (between + (Q + s));
    if |key| < |between| {
      assert all[1 + |key|] == between[|key|] != '"' == Search(key)[1 + |key|];
    } else if |between| < |key| {
      assert all[1 + |between|] == '"' != key[|between|] == Search(key)[1 + |between|];
    } else {
      var i :| 0 <= i < |key| && key[i] != between[i];
      assert all[1 + i] == between[i] != key[i] == Search(key)[1 + i];
    }
  }

  /** `printed` is how `seen` has been printed since the last quote, as far as names can tell. */
  predicate PrintedAs(seen: string, printed: string) {
    && '"' !in printed
    && if '\\' in seen then '\\' in printed else printed == seen
  }

  lemma PrintedAsNext(seen: string, printed: string, c: char)
    requires PrintedAs(seen, printed) && c != '"'
    ensures PrintedAs(seen + [c], printed + if c == '\\' then ['\\', c] else [c])
  {
    var piece := if c == '\\' then ['\\', c] else [c];
    assert (printed + piece)[|printed|] == (seen + [c])[|seen|] == c;
  }

  lemma PrintedAsName(seen: string, printed: string, s: string, key: string)
    requires PrintedAs(seen, printed) && IsKey(key)
    ensures Strstr(Q + (printed + (Q + s)), Search(key)) ==
            if seen == key then Some(Search(key) + s) else Strstr(Q + s, Search(key))
  {
    PassQuoted(printed, s, key);
  }

  /** In front of a printed double quote stands a backslash. */
  lemma PassPrintedQuote(seen: string, printed: string, s: string, key: string)
    requires PrintedAs(seen, printed) && IsKey(key)
    ensures Strstr(Q + (printed + ("\\\"" + s)), Search(key)) == Strstr(Q + s, Search(key))
  {
    assert "\\\"" + s == "\\" + (Q + s);
    Regroup(printed, "\\", Q + s);
    assert (printed + "\\")[|printed|] == '\\';
    PassQuoted(printed + "\\", s, key);
  }

  /** A printed value is passed over unless it hides the name. */
  lemma {:induction false} PassValue(src: string, room: nat, seen: string, printed: string, s: string, key: string)
    requires IsKey(key) && PrintedAs(seen, printed)
    ensures Strstr(Q + (printed + (Escaped(src, room) + (Q + s))), Search(key)) ==
            if AfterQuotes(seen, Kept(src, room)) == key then Some(Search(key) + s) else Strstr(Q + s, Search(key))
  {
    hide Strstr, Search, PrintedAs;
    if src == "" || room <= 2 {
      assert Escaped(src, room) + (Q + s) == Q + s;
      PrintedAsName(seen, printed, s, key);
    } else {
      hide Kept, Escaped, AfterQuotes, IsKey;
      var c := src[0];
      var left := if NeedsBackslash(c) then room - 2 else if c < ' ' then room else room - 1;
      var more := Escaped(src[1..], left) + (Q + s);
      KeptStep(src, room);
      EscapedStep(src, room, Q + s);
      AfterStep(seen, c, Kept(src[1..], left));
      if c == '"' {
        PassPrintedQuote(seen, printed, more, key);
        PrintedAsEmpty();
        PassValue(src[1..], left, "", "", s, key);
        assert "" + more == more;
      } else if c < ' ' {
        PassValue(src[1..], left, seen, printed, s, key);
      } else {
        var piece := if c == '\\' then ['\\', c] else [c];
        PrintedAsNext(seen, printed, c);
        PassValue(src[1..], left, seen + [c], printed + piece, s, key);
        Regroup(printed, piece, more);
      }
    }
  }

  lemma PrintedAsEmpty()
    ensures PrintedAs("", "")
  {
  }

  /** A value followed by the rest of the object is passed over, or takes the search to what follows it. */
  lemma PassField(fields: seq<Field>, l: Layout, key: string)
    requires |fields| > 0 && IsLayout(l) && IsKey(key) && IsField(fields[0])
    requires fields[0].key != key
    ensures Strstr(Object(fields, l), Search(key)) ==
            if Hides(fields[0], key) then Some(Search(key) + Following(fields, l))
            else Strstr(Object(fields[1..], l), Search(key))
  {
    hide Strstr, Search, Escaped, Kept, AfterQuotes, Following;
    var f, follow := fields[0], Following(fields, l);
    PassQuoted(f.key, ": " + Value(f, follow), key);
    match f
    case Text(_, value, room) =>
      var text := Escaped(value, room) + (Q + follow);
      assert ": "[0] == ':';
      PassQuoted(": ", text, key);
      PassValue(value, room, "", "", follow, key);
      assert "" + text == text;
      PassGap("", fields, l, key);
      assert "" + follow == follow;
    case Bare(_, token) =>
      Regroup(": ", token, follow);
      assert (": " + token)[0] == ':';
      PassGap(": " + token, fields, l, key);
  }

  /** From a quote over a gap to the next field's name. */
  lemma PassGap(gap: string, fields: seq<Field>, l: Layout, key: string)
    requires |fields| > 0 && IsLayout(l) && IsKey(key) && '"' !in gap && (gap == "" || gap[0] == ':')
    ensures Strstr(Q + (gap + Following(fields, l)), Search(key)) == Strstr(Object(fields[1..], l), Search(key))
  {
    hide Strstr, Search;
    if |fields| == 1 {
      OneQuoteIsNoName(gap + l.close, key);
      NoQuoteIsNoName(l.close, key);
    } else {
      var f := fields[1];
      var behind := f.key + (Q + (": " + Value(f, Following(fields[1..], l))));
      assert Object(fields[1..], l) == Q + behind;
      var between := gap + l.separator;
      assert between[|gap|] == ',';
      Regroup(gap, l.separator, Q + behind);
      PassQuoted(between, behind, key);
    }
  }

  lemma NoQuoteIsNoName(plain: string, key: string)
    requires '"' !in plain && IsKey(key)
    ensures Strstr(plain, Search(key)) == None
  {
    assert plain + "" == plain;
    PassPlain(plain, "", key);
  }

  lemma OneQuoteIsNoName(plain: string, key: string)
    requires '"' !in plain && IsKey(key)
    ensures Strstr(Q + plain, Search(key)) == None
  {
    var all := Q + plain;
    if |Search(key)| <= |all| {
      assert all[1 + |key|] == plain[|key|] != '"' == Search(key)[1 + |key|];
    }
    assert all[1..] == plain;
    NoQuoteIsNoName(plain, key);
  }

  /** Where the search ends at something that is neither blank nor a quote, nothing is read. */
  lemma {:induction false} NothingBehind(s: string, t: string, outLen: nat)
    requires '"' !in s && (t == "" || t[0] == ',')
    ensures Behind(s + t, outLen) == None
  {
    if s == "" {
      assert s + t == t;
    } else if IsBlank(s[0]) {
      assert (s + t)[1..] == s[1..] + t;
      NothingBehind(s[1..], t, outLen);
    }
  }

  lemma NothingBehindValue(gap: string, fields: seq<Field>, l: Layout, outLen: nat)
    requires |fields| > 0 && IsLayout(l) && '"' !in gap
    ensures Behind(gap + Following(fields, l), outLen) == None
  {
    if |fields| == 1 {
      NothingBehind(gap + l.close, "", outLen);
      assert gap + l.close + "" == gap + Following(fields, l);
    } else {
      NothingBehind(gap, Following(fields, l), outLen);
    }
  }

  /** What the reader answers for a name in a printed object. */
  function Expected(fields: seq<Field>, key: string, outLen: nat): Option<string>
    requires 0 < outLen
  {
    if fields == [] then None
    else if fields[0].key == key then
      if fields[0].Bare? then None
      else
        var kept := Kept(fields[0].value, fields[0].room);
        Some(kept[..Min(|kept|, outLen - 1)])
    else if Hides(fields[0], key) then None
    else Expected(fields[1..], key, outLen)
  }

  lemma {:induction false} LookUp(fields: seq<Field>, l: Layout, key: string, outLen: nat)
    requires IsLayout(l) && IsKey(key) && (forall f <- fields :: IsField(f)) && 0 < outLen
    ensures GetStr(Object(fields, l), key, outLen) == Expected(fields, key, outLen)
  {
    hide Strstr, Search, Escaped, Kept, AfterQuotes, Scan, SkipBlanks;
    if fields == [] {
      NoQuoteIsNoName(l.close, key);
    } else if fields[0].key == key {
      LookUpHere(fields, l, outLen);
    } else {
      PassField(fields, l, key);
      if Hides(fields[0], key) {
        var follow := Following(fields, l);
        assert (Search(key) + follow)[|Search(key)|..] == follow;
        NothingBehindValue("", fields, l, outLen);
        assert "" + follow == follow;
      } else {
        LookUp(fields[1..], l, key, outLen);
      }
    }
  }

  lemma LookUpHere(fields: seq<Field>, l: Layout, outLen: nat)
    requires |fields| > 0 && IsLayout(l) && IsField(fields[0]) && 0 < outLen
    ensures GetStr(Object(fields, l), fields[0].key, outLen) == Expected(fields, fields[0].key, outLen)
  {
    hide Strstr, Search, Escaped, Kept, AfterQuotes, Scan, Following;
    var f, follow := fields[0], Following(fields, l);
    var s := ": " + Value(f, follow);
    PassQuoted(f.key, s, f.key);
    assert (Search(f.key) + s)[|Search(f.key)|..] == s;
    match f
    case Text(_, value, room) =>
      var text := Escaped(value, room) + (Q + follow);
      assert s[1..][1..] == Q + text;
      assert SkipBlanks(s) == SkipBlanks(s[1..]) == SkipBlanks(s[1..][1..]) == Q + text;
      assert (Q + text)[1..] == text;
      ScanUndoesEscape(value, room, follow, outLen);
    case Bare(_, token) =>
      Regroup(": ", token, follow);
      NothingBehindValue(": " + token, fields, l, outLen);
  }

  ghost predicate DistinctKeys(fields: seq<Field>) {
    forall i, j :: 0 <= i < j < |fields| ==> fields[i].key != fields[j].key
  }

  lemma {:induction false} ExpectedOwnValue(fields: seq<Field>, n: nat, outLen: nat)
    requires n < |fields| && DistinctKeys(fields) && fields[n].Text? && 0 < outLen
    ensures var f := fields[n];
      var kept := Kept(f.value, f.room);
      Expected(fields, f.key, outLen) ==
      if exists i :: 0 <= i < n && Hides(fields[i], f.key) then None else Some(kept[..Min(|kept|, outLen - 1)])
  {
    hide Kept, Hides;
    if n == 0 {
    } else {
      var f, rest := fields[n], fields[1..];
      assert fields[0].key != f.key;
      ExpectedOwnValue(rest, n - 1, outLen);
      forall i | 0 < i < n ensures fields[i] == rest[i - 1] {
      }
      if !Hides(fields[0], f.key) {
        if i :| 0 <= i < n && Hides(fields[i], f.key) {
          assert Hides(rest[i - 1], f.key);
        }
        if i :| 0 <= i < n - 1 && Hides(rest[i], f.key) {
          assert Hides(fields[i + 1], f.key);
        }
      }
    }
  }

  /** In a flat printed object the reader returns a field's own value, exactly when no earlier value hides its
      name, and otherwise nothing: never another field's value. */
  lemma OwnValueExactly(fields: seq<Field>, open: string, l: Layout, n: nat, outLen: nat)
    requires IsLayout(l) && '"' !in open && (forall f <- fields :: IsField(f)) && DistinctKeys(fields)
    requires n < |fields| && fields[n].Text? && 0 < outLen
    ensures var f := fields[n];
      var kept := Kept(f.value, f.room);
      GetStr(open + Object(fields, l), f.key, outLen) ==
      if exists i :: 0 <= i < n && Hides(fields[i], f.key) then None else Some(kept[..Min(|kept|, outLen - 1)])
  {
    hide Kept, Hides, Expected, Object, Strstr, Search;
    var key := fields[n].key;
    PassPlain(open, Object(fields, l), key);
    assert fields[n] in fields;
    LookUp(fields, l, key, outLen);
    ExpectedOwnValue(fields, n, outLen);
  }

  lemma {:induction false} ExpectedNothing(fields: seq<Field>, key: string, outLen: nat)
    requires 0 < outLen && forall f <- fields :: f.key != key
    ensures Expected(fields, key, outLen) == None
  {
    if fields == [] {
    } else {
      ExpectedNothing(fields[1..], key, outLen);
    }
  }

  /** A name that no field of a printed object has is not found, whatever the values contain. */
  lemma AbsentKeyIsNotFound(fields: seq<Field>, open: string, l: Layout, key: string, outLen: nat)
    requires IsLayout(l) && '"' !in open && (forall f <- fields :: IsField(f)) && IsKey(key) && 0 < outLen
    requires forall f <- fields :: f.key != key
    ensures GetStr(open + Object(fields, l), key, outLen) == None
  {
    hide Kept, Hides, Expected, Object, Strstr, Search;
    PassPlain(open, Object(fields, l), key);
    LookUp(fields, l, key, outLen);
    ExpectedNothing(fields, key, outLen);
  }

  lemma {:induction false} NoQuotesNoParts(seen: string, text: string)
    requires '"' !in text
    ensures AfterQuotes(seen, text) == seen + text
    decreases |text|
  {
    if text == "" {
    } else {
      NoQuotesNoParts(seen + [text[0]], text[1..]);
      assert seen + [text[0]] + text[1..] == seen + text;
    }
  }

  lemma {:induction false} CleanText(src: string)
    ensures (forall c <- src :: c >= ' ') ==> Clean(src) == src
    ensures forall c <- Clean(src) :: c in src
  {
    if src == "" {
    } else {
      CleanText(src[1..]);
      assert src == [src[0]] + src[1..];
      if forall c <- src :: c >= ' ' {
        assert src[0] in src && forall c <- src[1..] :: c in src;
      }
    }
  }

  lemma {:induction false} CostAtMostDouble(text: string)
    ensures Cost(text) <= 2 * |text|
  {
    if text == "" {
    } else {
      CostAtMostDouble(text[1..]);
    }
  }

  /** A buffer of twice the length and one more keeps any text without control characters. */
  lemma RoomyBufferKeepsAll(src: string, room: nat)
    requires 2 * |src| < room && forall c <- src :: c >= ' '
    ensures Kept(src, room) == src
  {
    hide Kept;
    CleanText(src);
    WholeTextIsKept(src, room);
    if src != "" {
      CostAtMostDouble(src[..|src| - 1]);
    }
  }

  /** So values without double quotes whose printed part equals no key name all come back. */
  lemma EachFieldComesBack(fields: seq<Field>, open: string, l: Layout, n: nat, outLen: nat)
    requires IsLayout(l) && '"' !in open && (forall f <- fields :: IsField(f)) && DistinctKeys(fields)
    requires n < |fields| && fields[n].Text? && 0 < outLen
    requires forall f, g :: f in fields && g in fields && f.Text? ==> '"' !in f.value && Kept(f.value, f.room) != g.key
    ensures var kept := Kept(fields[n].value, fields[n].room);
      GetStr(open + Object(fields, l), fields[n].key, outLen) == Some(kept[..Min(|kept|, outLen - 1)])
  {
    hide Object, GetStr;
    OwnValueExactly(fields, open, l, n, outLen);
    forall i | 0 <= i < n ensures !Hides(fields[i], fields[n].key) {
      var f := fields[i];
      assert f in fields && fields[n] in fields;
      if f.Text? {
        CleanText(f.value);
        NoQuotesNoParts("", Kept(f.value, f.room));
      }
    }
  }

  /** A value that ends, behind a double quote, like another field's name hides that name. */
  lemma QuotedNameHides(f: Field, key: string)
    requires f.Text? && f.value == Q + key && 2 * |f.value| < f.room
    requires IsKey(key) && forall c <- key :: c >= ' '
    ensures Hides(f, key)
  {
    hide Kept;
    RoomyBufferKeepsAll(f.value, f.room);
    NoQuotesNoParts("", key);
    assert f.value[1..] == key;
  }

  /** So each field's name can be made unreadable by a field printed before it. */
  lemma ValueHidesField(first: Field, second: Field, l: Layout, outLen: nat)
    requires IsLayout(l) && 0 < outLen && IsField(first) && IsField(second) && first.key != second.key
    requires first.Text? && first.value == Q + second.key && 2 * |first.value| < first.room
    requires forall c <- second.key :: c >= ' '
    ensures GetStr(Object([first, second], l), second.key, outLen) == None
  {
    hide Object, GetStr, Kept, Hides;
    QuotedNameHides(first, second.key);
    LookUp([first, second], l, second.key, outLen);
  }
}
