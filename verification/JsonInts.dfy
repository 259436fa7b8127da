/** JSON texts that are arrays of integers (RFC 8259, sections 2, 5 and 6). Every other text is refused: it is no JSON,
    no array, or holds an element that is no integer. */
module JsonInts {
  import opened Wrappers

  predicate IsBlank(c: char): (b: bool)
    ensures b <==> c as int in {0x20, 0x09, 0x0A, 0x0D}
  {
    c == ' ' || c == '\t' || c == '\n' || c == '\r'
  }

  predicate IsDigit(c: char): (b: bool)
    ensures b <==> 0x30 <= c as int <= 0x39
  {
    '0' <= c <= '9'
  }

  predicate Blank(s: string) {
    forall i :: 0 <= i < |s| ==> IsBlank(s[i])
  }

  predicate AllDigits(s: string) {
    forall i :: 0 <= i < |s| ==> IsDigit(s[i])
  }

  function DigitValue(c: char): (n: nat)
    requires IsDigit(c)
    ensures n < 10 && c as int == 0x30 + n
  {
    c as nat - '0' as nat
  }

  function Value(digits: string): nat
    requires AllDigits(digits)
  {
    if digits == "" then 0 else 10 * Value(digits[..|digits| - 1]) + DigitValue(digits[|digits| - 1])
  }

  // ---- The grammar, with the blanks spelled out

  datatype Element = Element(before: string, negative: bool, digits: string, after: string)

  datatype Layout = Layout(before: string, inside: string, elements: seq<Element>, after: string)

  /** No leading zeros. */
  predicate IsNumeral(digits: string) {
    digits != "" && AllDigits(digits) && (digits[0] == '0' ==> |digits| == 1)
  }

  predicate IsElement(e: Element) {
    Blank(e.before) && Blank(e.after) && IsNumeral(e.digits)
  }

  predicate AllElements(es: seq<Element>) {
    forall i :: 0 <= i < |es| ==> IsElement(es[i])
  }

  predicate IsLayout(l: Layout) {
    && Blank(l.before) && Blank(l.inside) && Blank(l.after)
    && AllElements(l.elements)
  }

  function Signed(negative: bool, n: nat): int {
    if negative then 0 - n else n
  }

  function ElementValue(e: Element): int
    requires IsElement(e)
  {
    Signed(e.negative, Value(e.digits))
  }

  function Values(es: seq<Element>): seq<int>
    requires AllElements(es)
  {
    if es == [] then [] else [ElementValue(es[0])] + Values(es[1..])
  }

  function NumberText(e: Element): string {
    (if e.negative then "-" else "") + e.digits
  }

  function ElementText(e: Element): string {
    e.before + NumberText(e) + e.after
  }

  /** From the first element to the end of the text. */
  function ElementsText(es: seq<Element>, after: string): string
    requires es != []
  {
    ElementText(es[0]) + if |es| == 1 then "]" + after else "," + ElementsText(es[1..], after)
  }

  function Text(l: Layout): string {
    l.before + ("[" + if l.elements == [] then l.inside + ("]" + l.after) else ElementsText(l.elements, l.after))
  }

  // ---- The parser

  function BlankCount(s: string): (n: nat)
    ensures n <= |s| && Blank(s[..n]) && (n < |s| ==> !IsBlank(s[n]))
  {
    if s != "" && IsBlank(s[0]) then 1 + BlankCount(s[1..]) else 0
  }

  function SkipBlank(s: string): string {
    s[BlankCount(s)..]
  }

  function DigitCount(s: string): (n: nat)
    ensures n <= |s| && AllDigits(s[..n]) && (n < |s| ==> !IsDigit(s[n]))
  {
    if s != "" && IsDigit(s[0]) then 1 + DigitCount(s[1..]) else 0
  }

  function NumeralLength(s: string): (n: nat)
    ensures n <= DigitCount(s)
  {
    if s != "" && s[0] == '0' then 1 else DigitCount(s)
  }

  /** An integer at the start of the text, and what follows it. */
  function ParseNumber(s: string): Option<(int, string)> {
    var negative := s != "" && s[0] == '-';
    var d := if negative then s[1..] else s;
    var n := NumeralLength(d);
    if n == 0 then None else Some((Signed(negative, Value(d[..n])), d[n..]))
  }

  /** An integer with blanks around it, and what follows. */
  function ParseElement(s: string): (r: Option<(int, string)>)
    ensures r.Some? ==> |r.value.1| < |s|
  {
    var number := ParseNumber(SkipBlank(s));
    if number.None? then None else Some((number.value.0, SkipBlank(number.value.1)))
  }

  function ParseElements(s: string): Option<seq<int>>
    decreases |s|
  {
    var element := ParseElement(s);
    if element.None? || element.value.1 == "" then None
    else
      var v, rest := element.value.0, element.value.1;
      if rest[0] == ']' then if SkipBlank(rest[1..]) == "" then Some([v]) else None
      else if rest[0] == ',' then Before(v, ParseElements(rest[1..]))
      else None
  }

  function Before(v: int, more: Option<seq<int>>): Option<seq<int>> {
    if more.Some? then Some([v] + more.value) else None
  }

  /** What `json.loads` returns when it is a list of integers. */
  function Parse(raw: string): Option<seq<int>> {
    var s := SkipBlank(raw);
    if s == "" || s[0] != '[' then None
    else
      var t := SkipBlank(s[1..]);
      if t != "" && t[0] == ']' then if SkipBlank(t[1..]) == "" then Some([]) else None
      else ParseElements(s[1..])
  }

  // ---- The parser accepts every layout

  lemma {:induction false} SkipsBlank(w: string, s: string)
    requires Blank(w) && (s == "" || !IsBlank(s[0]))
    ensures SkipBlank(w + s) == s
  {
    if w == "" {
      assert w + s == s;
    } else {
      assert (w + s)[1..] == w[1..] + s;
      SkipsBlank(w[1..], s);
      var n := BlankCount(w[1..] + s);
      assert (w + s)[1 + n..] == (w[1..] + s)[n..];
    }
  }

  lemma {:induction false} CountsDigits(d: string, s: string)
    requires AllDigits(d) && (s == "" || !IsDigit(s[0]))
    ensures DigitCount(d + s) == |d|
  {
    if d == "" {
      assert d + s == s;
    } else {
      assert (d + s)[1..] == d[1..] + s;
      CountsDigits(d[1..], s);
    }
  }

  lemma ParsesNumber(e: Element, s: string)
    requires IsElement(e) && (s == "" || !IsDigit(s[0]))
    ensures ParseNumber(NumberText(e) + s) == Some((ElementValue(e), s))
  {
    var all := NumberText(e) + s;
    var d := if e.negative then all[1..] else all;
    assert d == e.digits + s;
    CountsDigits(e.digits, s);
    assert d[..|e.digits|] == e.digits && d[|e.digits|..] == s;
  }

  /** After its blanks an element neither begins with a blank nor with the closing bracket. */
  lemma NumberStarts(e: Element, s: string)
    requires IsElement(e)
    ensures SkipBlank(e.before + (NumberText(e) + s)) == NumberText(e) + s
    ensures NumberText(e) + s != "" && (NumberText(e) + s)[0] != ']'
  {
    SkipsBlank(e.before, NumberText(e) + s);
  }

  lemma ElementThen(e: Element, tail: string)
    ensures ElementText(e) + tail == e.before + (NumberText(e) + (e.after + tail))
  {
  }

  /** One element before a comma or the closing bracket. */
  lemma ParsesElement(e: Element, tail: string)
    requires IsElement(e) && tail != "" && (tail[0] == ',' || tail[0] == ']')
    ensures ParseElement(ElementText(e) + tail) == Some((ElementValue(e), tail))
  {
    var rest := e.after + tail;
    assert rest[0] == if e.after == "" then tail[0] else e.after[0];
    ElementThen(e, tail);
    NumberStarts(e, rest);
    ParsesNumber(e, rest);
    SkipsBlank(e.after, tail);
  }

  lemma SkipsAllBlank(w: string)
    requires Blank(w)
    ensures SkipBlank(w) == ""
  {
    SkipsBlank(w, "");
    assert w + "" == w;
  }

  lemma ParsesLast(e: Element, text: string, after: string)
    requires IsElement(e) && Blank(after) && text == ElementText(e) + ("]" + after)
    ensures ParseElements(text) == Some([ElementValue(e)])
  {
    ParsesElement(e, "]" + after);
    assert ("]" + after)[1..] == after;
    SkipsAllBlank(after);
  }

  lemma ParsesFurther(e: Element, text: string, more: string)
    requires IsElement(e) && text == ElementText(e) + ("," + more)
    ensures ParseElements(text) == Before(ElementValue(e), ParseElements(more))
  {
    ParsesElement(e, "," + more);
    assert ("," + more)[1..] == more;
  }

  lemma {:induction false} ParsesElements(es: seq<Element>, text: string, after: string)
    requires es != [] && Blank(after) && AllElements(es)
    requires text == ElementsText(es, after)
    ensures ParseElements(text) == Some(Values(es))
    decreases |es|
  {
    var e, rest := es[0], es[1..];
    if rest == [] {
      ParsesLast(e, text, after);
      assert Values(es) == [ElementValue(e)];
      assert ParseElements(text) == Some(Values(es));
    } else {
      var more := ElementsText(rest, after);
      ParsesElements(rest, more, after);
      ParsesFurther(e, text, more);
      assert Values(es) == [ElementValue(e)] + Values(rest);
      assert ParseElements(text) == Before(ElementValue(e), Some(Values(rest)));
      assert ParseElements(text) == Some([ElementValue(e)] + Values(rest));
    }
  }

  lemma ElementsStart(es: seq<Element>, after: string)
    requires es != [] && AllElements(es)
    ensures var t := SkipBlank(ElementsText(es, after)); t != "" && t[0] != ']'
  {
    var e := es[0];
    var rest := e.after + if |es| == 1 then "]" + after else "," + ElementsText(es[1..], after);
    assert ElementsText(es, after) == e.before + (NumberText(e) + rest);
    NumberStarts(e, rest);
  }

  lemma ParsesEveryLayout(l: Layout)
    requires IsLayout(l)
    ensures Parse(Text(l)) == Some(Values(l.elements))
  {
    var body := if l.elements == [] then l.inside + ("]" + l.after) else ElementsText(l.elements, l.after);
    SkipsBlank(l.before, "[" + body);
    assert ("[" + body)[1..] == body;
    if l.elements == [] {
      SkipsBlank(l.inside, "]" + l.after);
      assert ("]" + l.after)[1..] == l.after;
      SkipsAllBlank(l.after);
      assert Values(l.elements) == [];
    } else {
      ElementsStart(l.elements, l.after);
      ParsesElements(l.elements, body, l.after);
    }
  }

  // ---- The parser accepts nothing else

  lemma SplitBlank(s: string)
    ensures var n := BlankCount(s); s == s[..n] + SkipBlank(s) && Blank(s[..n])
  {
  }

  lemma NumeralIsNumeral(d: string)
    requires NumeralLength(d) > 0
    ensures IsNumeral(d[..NumeralLength(d)])
  {
    var n := NumeralLength(d);
    assert AllDigits(d[..DigitCount(d)]) && forall i :: 0 <= i < n ==> d[i] == d[..DigitCount(d)][i];
  }

  lemma SignSplits(s: string, n: nat) returns (sign: string, d: string)
    requires s != "" && n <= |if s[0] == '-' then s[1..] else s|
    ensures sign == (if s[0] == '-' then "-" else "") && d == if s[0] == '-' then s[1..] else s
    ensures s == sign + d[..n] + d[n..]
  {
    sign, d := if s[0] == '-' then "-" else "", if s[0] == '-' then s[1..] else s;
  }

  /** What `ParseNumber` took off the front of the text is a number literal. */
  lemma NumberHasText(s: string) returns (e: Element)
    requires ParseNumber(s).Some?
    ensures IsElement(e) && e.before == "" && e.after == ""
    ensures NumberText(e) <= s && ParseNumber(s) == Some((ElementValue(e), s[|NumberText(e)|..]))
  {
    var n := NumeralLength(if s[0] == '-' then s[1..] else s);
    var sign, d := SignSplits(s, n);
    NumeralIsNumeral(d);
    e := Element("", s[0] == '-', d[..n], "");
    assert NumberText(e) == sign + d[..n];
    assert s[|NumberText(e)|..] == d[n..];
  }

  lemma Regroup(a: string, b: string, c: string, d: string)
    ensures a + (b + (c + d)) == a + b + c + d
  {
  }

  lemma ElementHasText(s: string) returns (e: Element)
    requires ParseElement(s).Some?
    ensures IsElement(e) && ParseElement(s).value.0 == ElementValue(e)
    ensures s == ElementText(e) + ParseElement(s).value.1
  {
    var t := SkipBlank(s);
    var number := NumberHasText(t);
    var u := t[|NumberText(number)|..];
    assert t == NumberText(number) + u;
    SplitBlank(s);
    SplitBlank(u);
    e := Surround(number, s[..BlankCount(s)], u[..BlankCount(u)]);
    Regroup(e.before, NumberText(e), e.after, SkipBlank(u));
  }

  lemma Surround(number: Element, before: string, after: string) returns (e: Element)
    requires IsElement(number) && Blank(before) && Blank(after)
    ensures IsElement(e) && NumberText(e) == NumberText(number) && ElementValue(e) == ElementValue(number)
    ensures e.before == before && e.after == after
  {
    e := number.(before := before, after := after);
  }

  /** These elements and blanks are a text the parser read. */
  ghost predicate Explains(s: string, es: seq<Element>, after: string) {
    && es != [] && AllElements(es) && Blank(after)
    && ParseElements(s) == Some(Values(es)) && s == ElementsText(es, after)
  }

  lemma ExplainsLast(s: string, e: Element, after: string)
    requires IsElement(e) && Blank(after) && s == ElementText(e) + ("]" + after)
    requires ParseElements(s) == Some([ElementValue(e)])
    ensures Explains(s, [e], after)
  {
    assert Values([e]) == [ElementValue(e)];
    assert ElementsText([e], after) == ElementText(e) + ("]" + after);
  }

  lemma ValuesPrepend(e: Element, more: seq<Element>)
    requires IsElement(e) && AllElements(more)
    ensures AllElements([e] + more) && Values([e] + more) == [ElementValue(e)] + Values(more)
  {
    assert ([e] + more)[1..] == more;
  }

  lemma TextPrepend(e: Element, more: seq<Element>, after: string)
    requires more != []
    ensures ElementsText([e] + more, after) == ElementText(e) + ("," + ElementsText(more, after))
  {
    assert ([e] + more)[1..] == more;
  }

  lemma ExplainsFurther(s: string, e: Element, u: string, more: seq<Element>, after: string)
    requires IsElement(e) && s == ElementText(e) + ("," + u) && Explains(u, more, after)
    requires ParseElements(s) == Before(ElementValue(e), ParseElements(u))
    ensures Explains(s, [e] + more, after)
  {
    ValuesPrepend(e, more);
    TextPrepend(e, more, after);
  }

  /** The two ways in which the parser goes on after an element. */
  lemma ParseCases(s: string) returns (v: int, rest: string)
    requires ParseElements(s).Some?
    ensures ParseElement(s) == Some((v, rest)) && 0 < |rest| < |s|
    ensures if rest[0] == ']' then SkipBlank(rest[1..]) == "" && ParseElements(s) == Some([v])
            else && rest[0] == ',' && ParseElements(rest[1..]).Some?
                 && ParseElements(s) == Before(v, ParseElements(rest[1..]))
  {
    v, rest := ParseElement(s).value.0, ParseElement(s).value.1;
  }

  lemma HeadSplits(rest: string, head: string)
    requires |head| == 1 && rest != "" && rest[0] == head[0]
    ensures rest == head + rest[1..]
  {
  }

  /** The first element, and what follows the bracket or the comma after it. */
  lemma FirstHasText(s: string) returns (e: Element, last: bool, tail: string)
    requires ParseElements(s).Some?
    ensures IsElement(e) && |tail| < |s|
    ensures last ==> s == ElementText(e) + ("]" + tail) && SkipBlank(tail) == ""
                     && ParseElements(s) == Some([ElementValue(e)])
    ensures !last ==> s == ElementText(e) + ("," + tail) && ParseElements(tail).Some?
                      && ParseElements(s) == Before(ElementValue(e), ParseElements(tail))
  {
    var v, rest := ParseCases(s);
    e := ElementHasText(s);
    last, tail := rest[0] == ']', rest[1..];
    HeadSplits(rest, if last then "]" else ",");
  }

  lemma {:induction false} ElementsHaveText(s: string) returns (es: seq<Element>, after: string)
    requires ParseElements(s).Some?
    ensures Explains(s, es, after)
    decreases |s|
  {
    var e, last, tail := FirstHasText(s);
    if last {
      es, after := [e], tail;
      SplitBlank(after);
      ExplainsLast(s, e, after);
    } else {
      var more;
      more, after := ElementsHaveText(tail);
      es := [e] + more;
      ExplainsFurther(s, e, tail, more, after);
    }
  }

  lemma EmptyHasLayout(before: string, body: string) returns (l: Layout)
    requires Blank(before)
    requires var t := SkipBlank(body); t != "" && t[0] == ']' && SkipBlank(t[1..]) == ""
    ensures IsLayout(l) && Text(l) == before + ("[" + body) && Values(l.elements) == []
  {
    var t := SkipBlank(body);
    SplitBlank(body);
    SplitBlank(t[1..]);
    assert t == "]" + t[1..];
    l := Layout(before, body[..BlankCount(body)], [], t[1..]);
  }

  lemma FullHasLayout(before: string, body: string) returns (l: Layout)
    requires Blank(before) && ParseElements(body).Some?
    ensures IsLayout(l) && Text(l) == before + ("[" + body) && ParseElements(body) == Some(Values(l.elements))
  {
    var es, after := ElementsHaveText(body);
    l := Layout(before, "", es, after);
  }

  lemma ParsedHasLayout(raw: string) returns (l: Layout)
    requires Parse(raw).Some?
    ensures IsLayout(l) && Text(l) == raw && Parse(raw) == Some(Values(l.elements))
  {
    var s := SkipBlank(raw);
    SplitBlank(raw);
    var before, body := raw[..BlankCount(raw)], s[1..];
    assert s == "[" + body;
    if SkipBlank(body) != "" && SkipBlank(body)[0] == ']' {
      l := EmptyHasLayout(before, body);
    } else {
      l := FullHasLayout(before, body);
    }
  }

  /** The parser accepts exactly the arrays of integers the grammar describes, with their values. */
  lemma ParseIsTheGrammar(raw: string, vs: seq<int>)
    ensures Parse(raw) == Some(vs) <==> exists l :: IsLayout(l) && Text(l) == raw && Values(l.elements) == vs
  {
    if Parse(raw) == Some(vs) {
      var l := ParsedHasLayout(raw);
      assert IsLayout(l) && Text(l) == raw;
    }
    if l :| IsLayout(l) && Text(l) == raw && Values(l.elements) == vs {
      ParsesEveryLayout(l);
    }
  }

  lemma ParsesTwo(a: Element, b: Element, text: string, more: string)
    requires IsElement(a) && IsElement(b)
    requires text == ElementText(a) + ("," + more) && more == ElementText(b) + ("]" + "")
    ensures ParseElements(text) == Some([ElementValue(a), ElementValue(b)])
  {
    ParsesLast(b, more, "");
    ParsesFurther(a, text, more);
    assert [ElementValue(a)] + [ElementValue(b)] == [ElementValue(a), ElementValue(b)];
  }

  lemma ParsesArray(body: string)
    requires body != "" && !IsBlank(body[0]) && body[0] != ']'
    ensures Parse("[" + body) == ParseElements(body)
  {
    SkipsBlank("", "[" + body);
    assert "" + ("[" + body) == "[" + body && ("[" + body)[1..] == body;
    SkipsBlank("", body);
    assert "" + body == body;
  }

  lemma OneDigit(e: Element, n: nat)
    requires e.before == "" && e.after == "" && |e.digits| == 1 && n < 10 && e.digits[0] as int == 0x30 + n
    ensures IsElement(e) && ElementValue(e) == (if e.negative then 0 - n else n)
    ensures ElementText(e) == if e.negative then "-" + e.digits else e.digits
  {
    assert e.digits[..0] == "" && Value(e.digits[..0]) == 0;
  }

  lemma PairText(text: string, body: string, more: string)
    requires |text| == 6 && text[0] == '[' && text[2] == ',' && text[3] == '-' && text[5] == ']'
    requires body == text[1..] && more == text[3..]
    ensures text == "[" + body && body == [text[1]] + ("," + more) && more == "-" + [text[4]] + "]"
  {
  }

  lemma ReadsBody(a: Element, b: Element, m: nat, n: nat, body: string, more: string)
    requires a.before == "" && a.after == "" && |a.digits| == 1 && m < 10 && a.digits[0] as int == 0x30 + m
    requires b.before == "" && b.after == "" && |b.digits| == 1 && n < 10 && b.digits[0] as int == 0x30 + n
    requires !a.negative && b.negative && body == a.digits + ("," + more) && more == "-" + b.digits + "]"
    ensures ParseElements(body) == Some([m, 0 - n])
  {
    OneDigit(a, m);
    OneDigit(b, n);
    assert "]" + "" == "]";
    ParsesTwo(a, b, body, more);
  }

  /** Two one-digit numbers, the second negative: the text has every kind of character the grammar has, blanks aside. */
  lemma ReadsPair(text: string, m: nat, n: nat)
    requires |text| == 6 && text[0] == '[' && text[2] == ',' && text[3] == '-' && text[5] == ']'
    requires m < 10 && text[1] as int == 0x30 + m && n < 10 && text[4] as int == 0x30 + n
    ensures Parse(text) == Some([m, 0 - n])
  {
    var body, more := text[1..], text[3..];
    PairText(text, body, more);
    ReadsBody(Element("", false, [text[1]], ""), Element("", true, [text[4]], ""), m, n, body, more);
    ParsesArray(body);
  }
}
