/** The string helpers of the pages: trimming, splitting and joining, scope lists, HTML escaping. */
module Text {

  // ----- strings.TrimSpace, Split and Join -----

  /** unicode.IsSpace. */
  predicate IsSpace(c: char) {
    || c in "\t\n\r "
    || c as int in {0x0b, 0x0c, 0x85, 0xa0, 0x1680, 0x2028, 0x2029, 0x202f, 0x205f, 0x3000}
    || 0x2000 <= c as int <= 0x200a
  }

  function TrimLeft(s: string): string {
    if s != [] && IsSpace(s[0]) then TrimLeft(s[1..]) else s
  }

  function TrimRight(s: string): string {
    if s != [] && IsSpace(s[|s| - 1]) then TrimRight(s[..|s| - 1]) else s
  }

  function TrimSpace(s: string): string {
    TrimRight(TrimLeft(s))
  }

  /** Nothing to trim at either end. */
  predicate Trimmed(s: string) {
    s == [] || (!IsSpace(s[0]) && !IsSpace(s[|s| - 1]))
  }

  lemma {:induction false} TrimLeftSuffix(s: string)
    ensures |TrimLeft(s)| <= |s| && s[|s| - |TrimLeft(s)|..] == TrimLeft(s)
    ensures TrimLeft(s) != [] ==> !IsSpace(TrimLeft(s)[0])
  {
    if s != [] && IsSpace(s[0]) { TrimLeftSuffix(s[1..]); }
  }

  lemma {:induction false} TrimRightPrefix(s: string)
    ensures TrimRight(s) <= s
    ensures TrimRight(s) != [] ==> !IsSpace(TrimRight(s)[|TrimRight(s)| - 1])
  {
    if s != [] && IsSpace(s[|s| - 1]) { TrimRightPrefix(s[..|s| - 1]); }
  }

  /** Trimming leaves a trimmed string whose characters are all from the input, and a trimmed string alone. */
  lemma TrimSpaceTrims(s: string)
    ensures Trimmed(TrimSpace(s))
    ensures forall c :: c in TrimSpace(s) ==> c in s
    ensures Trimmed(s) ==> TrimSpace(s) == s
  {
    TrimLeftSuffix(s);
    TrimRightPrefix(TrimLeft(s));
  }

  /** strings.Split on one character: never empty. */
  function Split(s: string, sep: char): (parts: seq<string>)
    ensures parts != []
  {
    if s == [] then [[]]
    else
      var rest := Split(s[1..], sep);
      if s[0] == sep then [[]] + rest else [[s[0]] + rest[0]] + rest[1..]
  }

  function Join(items: seq<string>, sep: char): string {
    if items == [] then []
    else if |items| == 1 then items[0]
    else items[0] + [sep] + Join(items[1..], sep)
  }

  lemma {:induction false} SplitPartsHaveNoSep(s: string, sep: char)
    ensures forall part :: part in Split(s, sep) ==> sep !in part
  {
    if s != [] { SplitPartsHaveNoSep(s[1..], sep); }
  }

  lemma {:induction false} SplitOne(s: string, sep: char)
    requires sep !in s
    ensures Split(s, sep) == [s]
  {
    if s != [] {
      SplitOne(s[1..], sep);
      assert [s[0]] + s[1..] == s;
    }
  }

  lemma {:induction false} SplitAtSep(a: string, b: string, sep: char)
    requires sep !in a
    ensures Split(a + [sep] + b, sep) == [a] + Split(b, sep)
  {
    var s := a + [sep] + b;
    if a == [] {
      assert s[1..] == b;
    } else {
      assert s[1..] == a[1..] + [sep] + b;
      SplitAtSep(a[1..], b, sep);
      assert [a[0]] + a[1..] == a;
    }
  }

  lemma {:induction false} SplitJoin(items: seq<string>, sep: char)
    requires items != [] && forall x :: x in items ==> sep !in x
    ensures Split(Join(items, sep), sep) == items
  {
    if |items| == 1 {
      SplitOne(items[0], sep);
    } else {
      SplitJoin(items[1..], sep);
      SplitAtSep(items[0], Join(items[1..], sep), sep);
    }
  }

  // ----- scope lists -----

  /** The trimmed non-empty parts, in order. */
  function KeepNonEmpty(parts: seq<string>): seq<string> {
    if parts == [] then []
    else
      var p := TrimSpace(parts[|parts| - 1]);
      KeepNonEmpty(parts[..|parts| - 1]) + if p != "" then [p] else []
  }

  function Scopes(s: string): seq<string> {
    if TrimSpace(s) == "" then [] else KeepNonEmpty(Split(TrimSpace(s), ','))
  }

  method SplitScopes(s: string) returns (out: seq<string>)
    ensures out == Scopes(s)
    ensures forall x :: x in out ==> Trimmed(x) && x != "" && ',' !in x
  {
    var trimmed := TrimSpace(s);
    ScopesAreClean(s);
    if trimmed == "" { return []; }
    var parts := Split(trimmed, ',');
    out := [];
    for i := 0 to |parts|
      invariant out == KeepNonEmpty(parts[..i])
    {
      assert parts[..i + 1][..i] == parts[..i];
      var p := TrimSpace(parts[i]);
      if p != "" {
        out := out + [p];
      }
    }
    assert parts[..|parts|] == parts;
  }

  predicate CleanScope(x: string) {
    Trimmed(x) && x != "" && ',' !in x
  }

  lemma {:induction false} KeptAreClean(parts: seq<string>)
    requires forall part :: part in parts ==> ',' !in part
    ensures forall x :: x in KeepNonEmpty(parts) ==> CleanScope(x)
  {
    if parts != [] {
      KeptAreClean(parts[..|parts| - 1]);
      TrimSpaceTrims(parts[|parts| - 1]);
      assert parts[|parts| - 1] in parts;
    }
  }

  /** Every scope is trimmed, not empty and free of commas. */
  lemma ScopesAreClean(s: string)
    ensures forall x :: x in Scopes(s) ==> CleanScope(x)
  {
    SplitPartsHaveNoSep(TrimSpace(s), ',');
    KeptAreClean(Split(TrimSpace(s), ','));
  }

  lemma {:induction false} KeepsClean(parts: seq<string>)
    requires forall x :: x in parts ==> CleanScope(x)
    ensures KeepNonEmpty(parts) == parts
  {
    if parts != [] {
      var init, last := parts[..|parts| - 1], parts[|parts| - 1];
      assert last in parts && CleanScope(last);
      KeepsClean(init);
      TrimSpaceTrims(last);
      hide KeepNonEmpty, TrimSpace, Trimmed;
      KeepLast(init, last);
      assert init + [last] == parts;
    }
  }

  lemma {:induction false} JoinIsTrimmed(items: seq<string>)
    requires items != [] && forall x :: x in items ==> CleanScope(x)
    ensures Join(items, ',') != "" && Trimmed(Join(items, ','))
  {
    assert items[0] in items;
    if |items| > 1 { JoinIsTrimmed(items[1..]); }
  }

  /** Splitting a joined list of scopes gives the list back. */
  lemma ScopesOfJoin(items: seq<string>)
    requires forall x :: x in items ==> CleanScope(x)
    ensures Scopes(Join(items, ',')) == items
  {
    if items != [] {
      JoinIsTrimmed(items);
      TrimSpaceTrims(Join(items, ','));
      SplitJoin(items, ',');
      KeepsClean(items);
    }
  }

  // Blanks around the parts do not matter.

  lemma {:induction false} KeepAppend(a: seq<string>, b: seq<string>)
    ensures KeepNonEmpty(a + b) == KeepNonEmpty(a) + KeepNonEmpty(b)
    decreases |b|
  {
    if b == [] {
      assert a + b == a;
    } else {
      assert (a + b)[..|a + b| - 1] == a + b[..|b| - 1];
      KeepAppend(a, b[..|b| - 1]);
    }
  }

  lemma KeepOne(part: string)
    ensures KeepNonEmpty([part]) == if TrimSpace(part) != "" then [TrimSpace(part)] else []
  {
    assert [part][..0] == [];
  }

  lemma {:induction false} AllBlank(s: string)
    requires forall c :: c in s ==> IsSpace(c)
    ensures TrimLeft(s) == "" && TrimSpace(s) == ""
  {
    if s != [] { AllBlank(s[1..]); }
  }

  lemma {:induction false} TrimLeftPad(pad: string, s: string)
    requires forall c :: c in pad ==> IsSpace(c)
    ensures TrimLeft(pad + s) == TrimLeft(s)
  {
    if pad == [] {
      assert pad + s == s;
    } else {
      assert (pad + s)[1..] == pad[1..] + s;
      TrimLeftPad(pad[1..], s);
    }
  }

  lemma {:induction false} TrimRightPad(s: string, pad: string)
    requires forall c :: c in pad ==> IsSpace(c)
    ensures TrimRight(s + pad) == TrimRight(s)
    decreases |pad|
  {
    if pad == [] {
      assert s + pad == s;
    } else {
      assert (s + pad)[..|s + pad| - 1] == s + pad[..|pad| - 1];
      TrimRightPad(s, pad[..|pad| - 1]);
    }
  }

  /** Trimming takes off exactly the blanks around a trimmed text. */
  lemma TrimPadded(left: string, item: string, right: string)
    requires forall c :: c in left + right ==> IsSpace(c)
    requires Trimmed(item)
    ensures TrimSpace(left + item + right) == item
  {
    assert forall c :: c in left ==> c in left + right;
    assert forall c :: c in right ==> c in left + right;
    assert left + item + right == left + (item + right);
    TrimLeftPad(left, item + right);
    if item == [] {
      assert item + right == right;
      AllBlank(right);
    } else {
      assert !IsSpace((item + right)[0]);
      TrimRightPad(item, right);
      assert TrimRight(item) == item;
    }
  }

  lemma {:induction false} SplitLeftPad(pad: string, s: string)
    requires forall c :: c in pad ==> IsSpace(c)
    ensures KeepNonEmpty(Split(pad + s, ',')) == KeepNonEmpty(Split(s, ','))
  {
    if pad == [] {
      assert pad + s == s;
    } else {
      var rest := pad[1..] + s;
      assert (pad + s)[1..] == rest && (pad + s)[0] == pad[0] && IsSpace(pad[0]);
      SplitLeftPad(pad[1..], s);
      var parts := Split(rest, ',');
      assert Split(pad + s, ',') == [[pad[0]] + parts[0]] + parts[1..];
      KeepAppend([[pad[0]] + parts[0]], parts[1..]);
      KeepAppend([parts[0]], parts[1..]);
      KeepOne([pad[0]] + parts[0]);
      KeepOne(parts[0]);
      TrimLeftPad([pad[0]], parts[0]);
      assert [parts[0]] + parts[1..] == parts;
    }
  }

  lemma {:induction false} SplitSnoc(s: string, c: char)
    requires c != ','
    ensures var parts := Split(s, ',');
            Split(s + [c], ',') == parts[..|parts| - 1] + [parts[|parts| - 1] + [c]]
  {
    if s == [] {
      SplitOne("", ',');
      SplitOne([c], ',');
      assert s + [c] == [c] && [""][..0] + ["" + [c]] == [[c]];
    } else {
      assert (s + [c])[1..] == s[1..] + [c] && (s + [c])[0] == s[0];
      SplitSnoc(s[1..], c);
      var rest := Split(s[1..], ',');
      var rest' := rest[..|rest| - 1] + [rest[|rest| - 1] + [c]];
      assert Split(s[1..] + [c], ',') == rest';
      if s[0] == ',' {
        assert [[]] + rest' == ([[]] + rest)[..|rest|] + [rest[|rest| - 1] + [c]];
      } else if |rest| == 1 {
        assert [s[0]] + (rest[0] + [c]) == ([s[0]] + rest[0]) + [c];
      }
    }
  }

  lemma KeepLast(init: seq<string>, last: string)
    ensures KeepNonEmpty(init + [last])
            == KeepNonEmpty(init) + if TrimSpace(last) != "" then [TrimSpace(last)] else []
  {
    assert (init + [last])[..|init + [last]| - 1] == init;
  }

  lemma KeepSnoc(parts: seq<string>, c: char)
    requires parts != [] && IsSpace(c)
    ensures KeepNonEmpty(parts[..|parts| - 1] + [parts[|parts| - 1] + [c]]) == KeepNonEmpty(parts)
  {
    hide KeepNonEmpty, TrimSpace;
    var init, last := parts[..|parts| - 1], parts[|parts| - 1];
    KeepLast(init, last + [c]);
    KeepLast(init, last);
    TrimSpaceSnoc(last, c);
    assert init + [last] == parts;
  }

  lemma {:induction false} SplitRightPad(s: string, pad: string)
    requires forall c :: c in pad ==> IsSpace(c)
    ensures KeepNonEmpty(Split(s + pad, ',')) == KeepNonEmpty(Split(s, ','))
    decreases |pad|
  {
    if pad == [] {
      assert s + pad == s;
    } else {
      var c := pad[|pad| - 1];
      var rest := s + pad[..|pad| - 1];
      assert s + pad == rest + [c] && IsSpace(c);
      SplitRightPad(s, pad[..|pad| - 1]);
      SplitSnoc(rest, c);
      KeepSnoc(Split(rest, ','), c);
      hide KeepNonEmpty, Split;
    }
  }

  lemma {:induction false} TrimSpaceSnoc(s: string, c: char)
    requires IsSpace(c)
    ensures TrimSpace(s + [c]) == TrimSpace(s)
  {
    if s != [] && IsSpace(s[0]) {
      assert (s + [c])[1..] == s[1..] + [c];
      TrimSpaceSnoc(s[1..], c);
    } else if s == [] {
      assert s + [c] == [c];
      AllBlank([c]);
    } else {
      TrimRightPad(s, [c]);
    }
  }

  /** What TrimSpace takes off is blank. */
  lemma {:induction false} TrimParts(s: string) returns (left: string, right: string)
    ensures s == left + TrimSpace(s) + right
    ensures forall c :: c in left + right ==> IsSpace(c)
  {
    left := TrimmedLeft(s);
    right := TrimmedRight(TrimLeft(s));
  }

  lemma {:induction false} TrimmedLeft(s: string) returns (left: string)
    ensures s == left + TrimLeft(s) && forall c :: c in left ==> IsSpace(c)
  {
    left := "";
    if s != [] && IsSpace(s[0]) {
      left := TrimmedLeft(s[1..]);
      left := [s[0]] + left;
    }
  }

  lemma {:induction false} TrimmedRight(s: string) returns (right: string)
    ensures s == TrimRight(s) + right && forall c :: c in right ==> IsSpace(c)
  {
    right := "";
    if s != [] && IsSpace(s[|s| - 1]) {
      right := TrimmedRight(s[..|s| - 1]);
      right := right + [s[|s| - 1]];
    }
  }

  lemma PaddedSplit(left: string, s: string, right: string)
    requires (forall c :: c in left ==> IsSpace(c)) && forall c :: c in right ==> IsSpace(c)
    ensures KeepNonEmpty(Split(left + s + right, ',')) == KeepNonEmpty(Split(s, ','))
  {
    hide KeepNonEmpty, Split, IsSpace;
    SplitLeftPad(left, s + right);
    SplitRightPad(s, right);
    assert left + s + right == left + (s + right);
  }

  lemma NothingKept()
    ensures KeepNonEmpty(Split("", ',')) == []
  {
    SplitOne("", ',');
    KeepOne("");
    AllBlank("");
  }

  lemma ScopesAreKept(s: string)
    ensures Scopes(s) == KeepNonEmpty(Split(s, ','))
  {
    NothingKept();
    var left, right := TrimParts(s);
    assert forall c :: c in left ==> c in left + right;
    assert forall c :: c in right ==> c in left + right;
    PaddedSplit(left, TrimSpace(s), right);
    hide TrimSpace, KeepNonEmpty, Split;
  }

  /** One entry of a typed list: a trimmed text without commas, possibly empty, with blanks around it. */
  datatype Padded = Padded(left: string, item: string, right: string) {
    predicate Valid() {
      && (forall c :: c in left + right ==> IsSpace(c))
      && Trimmed(item) && ',' !in item
    }

    function Text(): string {
      left + item + right
    }
  }

  function Texts(entries: seq<Padded>): seq<string> {
    if entries == [] then [] else Texts(entries[..|entries| - 1]) + [entries[|entries| - 1].Text()]
  }

  function Items(entries: seq<Padded>): seq<string> {
    if entries == [] then []
    else
      var last := entries[|entries| - 1].item;
      Items(entries[..|entries| - 1]) + if last == "" then [] else [last]
  }

  lemma TextHasNoComma(entry: Padded)
    requires entry.Valid()
    ensures ',' !in entry.Text()
  {
    assert forall c :: c in entry.left ==> c in entry.left + entry.right;
    assert forall c :: c in entry.right ==> c in entry.left + entry.right;
    assert !IsSpace(',');
  }

  lemma {:induction false} TextsAreParts(entries: seq<Padded>)
    requires forall x :: x in entries ==> x.Valid()
    ensures |Texts(entries)| == |entries| && forall x :: x in Texts(entries) ==> ',' !in x
  {
    if entries != [] {
      TextsAreParts(entries[..|entries| - 1]);
      assert entries[|entries| - 1] in entries;
      TextHasNoComma(entries[|entries| - 1]);
    }
  }

  lemma {:induction false} TextsKeepItems(entries: seq<Padded>)
    requires forall x :: x in entries ==> x.Valid()
    ensures KeepNonEmpty(Texts(entries)) == Items(entries)
  {
    if entries != [] {
      var last := entries[|entries| - 1];
      TextsKeepItems(entries[..|entries| - 1]);
      assert last in entries;
      TrimPadded(last.left, last.item, last.right);
      hide KeepNonEmpty, TrimSpace, IsSpace, Trimmed;
      KeepLast(Texts(entries[..|entries| - 1]), last.Text());
    }
  }

  /** A typed list yields its non-empty entries in order, whatever blanks stand around them. */
  lemma ScopesOfTyped(entries: seq<Padded>)
    requires forall x :: x in entries ==> x.Valid()
    ensures Scopes(Join(Texts(entries), ',')) == Items(entries)
  {
    TextsKeepItems(entries);
    TextsAreParts(entries);
    ScopesAreKept(Join(Texts(entries), ','));
    if entries != [] {
      SplitJoin(Texts(entries), ',');
    } else {
      NothingKept();
    }
  }

  /** Splitting, joining and splitting again changes nothing. */
  lemma ScopesStable(s: string)
    ensures Scopes(Join(Scopes(s), ',')) == Scopes(s)
  {
    ScopesAreClean(s);
    ScopesOfJoin(Scopes(s));
  }

  // ----- HTML escaping -----

  /** strings.ReplaceAll for a one-character pattern. */
  function ReplaceAll(s: string, c: char, with: string): string {
    if s == [] then [] else (if s[0] == c then with else [s[0]]) + ReplaceAll(s[1..], c, with)
  }

  /** The five passes, in the order the code makes them. */
  function EscapeHTML(s: string): string {
    var s1 := ReplaceAll(s, '&', "&amp;");
    var s2 := ReplaceAll(s1, '<', "&lt;");
    var s3 := ReplaceAll(s2, '>', "&gt;");
    var s4 := ReplaceAll(s3, '"', "&quot;");
    ReplaceAll(s4, '\'', "&#39;")
  }

  function Entity(c: char): string {
    match c
    case '&' => "&amp;"
    case '<' => "&lt;"
    case '>' => "&gt;"
    case '"' => "&quot;"
    case '\'' => "&#39;"
    case _ => [c]
  }

  /** One character at a time. */
  function EscapeEach(s: string): string {
    if s == [] then [] else Entity(s[0]) + EscapeEach(s[1..])
  }

  lemma {:induction false} ReplaceAppend(a: string, b: string, c: char, with: string)
    ensures ReplaceAll(a + b, c, with) == ReplaceAll(a, c, with) + ReplaceAll(b, c, with)
  {
    if a == [] {
      assert a + b == b;
    } else {
      assert (a + b)[1..] == a[1..] + b;
      ReplaceAppend(a[1..], b, c, with);
    }
  }

  lemma {:induction false} ReplaceAbsent(s: string, c: char, with: string)
    requires c !in s
    ensures ReplaceAll(s, c, with) == s
  {
    if s != [] { ReplaceAbsent(s[1..], c, with); }
  }

  lemma ReplaceOne(c: char, with: string)
    ensures ReplaceAll([c], c, with) == with
  {
    assert ReplaceAll([c][1..], c, with) == [];
  }

  lemma EscapeAppend(a: string, b: string)
    ensures EscapeHTML(a + b) == EscapeHTML(a) + EscapeHTML(b)
  {
    var a1, b1 := ReplaceAll(a, '&', "&amp;"), ReplaceAll(b, '&', "&amp;");
    var a2, b2 := ReplaceAll(a1, '<', "&lt;"), ReplaceAll(b1, '<', "&lt;");
    var a3, b3 := ReplaceAll(a2, '>', "&gt;"), ReplaceAll(b2, '>', "&gt;");
    var a4, b4 := ReplaceAll(a3, '"', "&quot;"), ReplaceAll(b3, '"', "&quot;");
    ReplaceAppend(a, b, '&', "&amp;");
    ReplaceAppend(a1, b1, '<', "&lt;");
    ReplaceAppend(a2, b2, '>', "&gt;");
    ReplaceAppend(a3, b3, '"', "&quot;");
    ReplaceAppend(a4, b4, '\'', "&#39;");
    hide ReplaceAll;
  }

  /** A pass applied to what the passes before it made of one character. */
  lemma Pass(s: string, c: char, with: string)
    ensures c !in s ==> ReplaceAll(s, c, with) == s
    ensures s == [c] ==> ReplaceAll(s, c, with) == with
  {
    if c !in s { ReplaceAbsent(s, c, with); }
    if s == [c] { ReplaceOne(c, with); }
  }

  lemma EscapeOne(c: char)
    ensures EscapeHTML([c]) == Entity(c)
  {
    hide ReplaceAll;
    var s1 := ReplaceAll([c], '&', "&amp;");
    var s2 := ReplaceAll(s1, '<', "&lt;");
    var s3 := ReplaceAll(s2, '>', "&gt;");
    var s4 := ReplaceAll(s3, '"', "&quot;");
    Pass([c], '&', "&amp;");
    Pass(s1, '<', "&lt;");
    Pass(s2, '>', "&gt;");
    Pass(s3, '"', "&quot;");
    Pass(s4, '\'', "&#39;");
  }

  /** The five passes are one character-by-character map: a later pass never touches what an earlier one wrote. */
  lemma {:induction false} EscapeIsCharacterwise(s: string)
    ensures EscapeHTML(s) == EscapeEach(s)
  {
    if s == [] {
    } else {
      EscapeAppend([s[0]], s[1..]);
      assert [s[0]] + s[1..] == s;
      EscapeOne(s[0]);
      EscapeIsCharacterwise(s[1..]);
      hide EscapeHTML;
    }
  }

  /** No raw angle bracket or quote is left. */
  lemma {:induction false} EscapedHasNoMarkup(s: string)
    ensures forall c :: c in EscapeHTML(s) ==> c !in "<>\"'"
  {
    EscapeIsCharacterwise(s);
    EachHasNoMarkup(s);
  }

  lemma {:induction false} EachHasNoMarkup(s: string)
    ensures forall c :: c in EscapeEach(s) ==> c !in "<>\"'"
  {
    if s != [] { EachHasNoMarkup(s[1..]); }
  }

  /** Reads the five entities back. */
  function Unescape(s: string): string
    decreases |s|
  {
    if s == [] then []
    else if "&amp;" <= s then "&" + Unescape(s[5..])
    else if "&lt;" <= s then "<" + Unescape(s[4..])
    else if "&gt;" <= s then ">" + Unescape(s[4..])
    else if "&quot;" <= s then "\"" + Unescape(s[6..])
    else if "&#39;" <= s then "'" + Unescape(s[5..])
    else [s[0]] + Unescape(s[1..])
  }

  lemma UnescapeEntity(c: char, rest: string)
    ensures Unescape(Entity(c) + rest) == [c] + Unescape(rest)
  {
    var s := Entity(c) + rest;
    assert s[|Entity(c)|..] == rest;
    if c == '&' {
      assert "&amp;" <= s;
    } else if c in "<>\"'" {
      assert Entity(c) <= s && s[1] == Entity(c)[1] && s[2] == Entity(c)[2];
    } else {
      assert s[0] == c;
      assert !("&amp;" <= s) && !("&lt;" <= s) && !("&gt;" <= s) && !("&quot;" <= s) && !("&#39;" <= s);
    }
  }

  lemma {:induction false} UnescapeEach(s: string)
    ensures Unescape(EscapeEach(s)) == s
  {
    if s != [] {
      UnescapeEntity(s[0], EscapeEach(s[1..]));
      UnescapeEach(s[1..]);
    }
  }

  /** Unescaping recovers the text, so no two texts escape alike. */
  lemma EscapeRoundTrip(s: string, t: string)
    ensures Unescape(EscapeHTML(s)) == s
    ensures EscapeHTML(s) == EscapeHTML(t) ==> s == t
  {
    EscapeIsCharacterwise(s);
    EscapeIsCharacterwise(t);
    UnescapeEach(s);
    UnescapeEach(t);
  }
}
