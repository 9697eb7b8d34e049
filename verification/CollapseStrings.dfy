/**
 CleansedLines._CollapseStrings, after escapes have been removed: strings and characters become
 empty ones, and digit separators go away. A line is a list of characters here, taken apart from
 the front as the loop does.
 */
module CollapseStrings {
  import opened BracketText

  datatype Text = Nil | Cons(head: char, tail: Text)

  function Append(a: Text, b: Text): Text {
    match a
    case Nil => b
    case Cons(c, rest) => Cons(c, Append(rest, b))
  }

  function Length(s: Text): nat {
    match s
    case Nil => 0
    case Cons(_, rest) => 1 + Length(rest)
  }

  predicate IsQuote(c: char) {
    c == '\'' || c == '"'
  }

  /** The text before the first quote, and the text from there on. */
  function Head(s: Text): Text {
    match s
    case Nil => Nil
    case Cons(c, rest) => if IsQuote(c) then Nil else Cons(c, Head(rest))
  }

  function FromQuote(s: Text): (r: Text)
    ensures Length(r) <= Length(s) && (r.Cons? ==> IsQuote(r.head))
    ensures Head(s).Cons? ==> Length(r) < Length(s)
  {
    match s
    case Nil => Nil
    case Cons(c, rest) => if IsQuote(c) then s else FromQuote(rest)
  }

  predicate Has(s: Text, q: char) {
    s.Cons? && (s.head == q || Has(s.tail, q))
  }

  /** The text after the first q. */
  function Beyond(s: Text, q: char): (r: Text)
    ensures Has(s, q) ==> Length(r) < Length(s)
  {
    match s
    case Nil => Nil
    case Cons(c, rest) => if c == q then rest else Beyond(rest, q)
  }

  predicate IsHex(c: char) {
    '0' <= c <= '9' || 'a' <= c <= 'f' || 'A' <= c <= 'F'
  }

  predicate AllHex(s: Text) {
    s.Nil? || (IsHex(s.head) && AllHex(s.tail))
  }

  /** (?:0[bBxX]?|[1-9])[0-9a-fA-F]*$ */
  predicate IsNumber(s: Text) {
    && s.Cons?
    && (|| ('1' <= s.head <= '9' && AllHex(s.tail))
        || (s.head == '0' && AllHex(s.tail))
        || (s.head == '0' && s.tail.Cons? && s.tail.head in "bBxX" && AllHex(s.tail.tail)))
  }

  /** Some number that starts at a word boundary ends with s; afterWord says what comes before s. */
  predicate HasNumber(afterWord: bool, s: Text)
    decreases s
  {
    s.Cons? && ((!afterWord && IsNumber(s)) || HasNumber(IsWord(s.head), s.tail))
  }

  predicate EndsInNumber(s: Text) {
    HasNumber(false, s)
  }

  /** The digits and letters of (?:'?[0-9a-zA-Z_])* at the front of s, without separators. */
  function Literal(s: Text): Text {
    match s
    case Cons(c, rest) =>
      if IsWord(c) then Cons(c, Literal(rest))
      else if c == '\'' && rest.Cons? && IsWord(rest.head) then Cons(rest.head, Literal(rest.tail))
      else Nil
    case Nil => Nil
  }

  /** What comes after it. */
  function AfterLiteral(s: Text): (r: Text)
    ensures Length(r) <= Length(s)
  {
    match s
    case Cons(c, rest) =>
      if IsWord(c) then AfterLiteral(rest)
      else if c == '\'' && rest.Cons? && IsWord(rest.head) then AfterLiteral(rest.tail)
      else s
    case Nil => s
  }

  function Collapse(s: Text): Text
    decreases Length(s)
  {
    var h, y := Head(s), FromQuote(s);
    if y.Nil? then s
    else if y.head == '\'' && EndsInNumber(h) then
      // the separator branch may take nothing after the quote, but h is not empty
      Append(h, Append(Literal(y), Collapse(AfterLiteral(y))))
    else if Has(y.tail, y.head) then
      Append(h, Cons(y.head, Cons(y.head, Collapse(Beyond(y.tail, y.head)))))
    else s
  }

  lemma {:induction false} AppendAssoc(a: Text, b: Text, c: Text)
    ensures Append(Append(a, b), c) == Append(a, Append(b, c))
  {
    if a.Cons? {
      AppendAssoc(a.tail, b, c);
    }
  }

  lemma {:induction false} AppendNil(a: Text)
    ensures Append(a, Nil) == a
  {
    if a.Cons? {
      AppendNil(a.tail);
    }
  }

  lemma AppendEmpty(q: char, u: Text)
    ensures Append(Cons(q, Cons(q, Nil)), u) == Cons(q, Cons(q, u))
  {
    assert Append(Cons(q, Nil), u) == Cons(q, u);
  }

  method CollapseStrings(line: Text) returns (collapsed: Text)
    ensures collapsed == Collapse(line)
  {
    var elided := line;
    collapsed := Nil;
    while true
      invariant Append(collapsed, Collapse(elided)) == Collapse(line)
      decreases Length(elided)
    {
      var head, found := Head(elided), FromQuote(elided);
      if found.Nil? {
        return Append(collapsed, elided);
      }
      var quote, tail := found.head, found.tail;
      if quote == '\'' && EndsInNumber(head) {
        var literal := Literal(found);
        AppendAssoc(collapsed, head, Append(literal, Collapse(AfterLiteral(found))));
        AppendAssoc(Append(collapsed, head), literal, Collapse(AfterLiteral(found)));
        collapsed := Append(Append(collapsed, head), literal);
        elided := AfterLiteral(found);
      } else if Has(tail, quote) {
        var empty := Cons(quote, Cons(quote, Nil));
        AppendEmpty(quote, Collapse(Beyond(tail, quote)));
        AppendAssoc(collapsed, head, Append(empty, Collapse(Beyond(tail, quote))));
        AppendAssoc(Append(collapsed, head), empty, Collapse(Beyond(tail, quote)));
        collapsed := Append(Append(collapsed, head), empty);
        elided := Beyond(tail, quote);
      } else {
        return Append(collapsed, elided);
      }
    }
  }

  // ------------------------------------------------------------- idempotence

  predicate QuoteFree(s: Text) {
    s.Nil? || (!IsQuote(s.head) && QuoteFree(s.tail))
  }

  /** s begins with nothing that a number literal before it would take. */
  predicate Stops(s: Text) {
    AfterLiteral(s) == s
  }

  lemma {:induction false} Cut(s: Text)
    ensures s == Append(Head(s), FromQuote(s)) && QuoteFree(Head(s))
  {
    if s.Cons? && !IsQuote(s.head) {
      Cut(s.tail);
    }
  }

  lemma {:induction false} CutAt(h: Text, y: Text)
    requires QuoteFree(h) && (y.Cons? ==> IsQuote(y.head))
    ensures Head(Append(h, y)) == h && FromQuote(Append(h, y)) == y
  {
    if h.Cons? {
      CutAt(h.tail, y);
    }
  }

  lemma {:induction false} QuoteFreeAppend(a: Text, b: Text)
    requires QuoteFree(a) && QuoteFree(b)
    ensures QuoteFree(Append(a, b))
  {
    if a.Cons? {
      QuoteFreeAppend(a.tail, b);
    }
  }

  lemma {:induction false} LiteralIsQuoteFree(s: Text)
    ensures QuoteFree(Literal(s))
  {
    if s.Cons? {
      if IsWord(s.head) {
        LiteralIsQuoteFree(s.tail);
      } else if s.tail.Cons? && IsWord(s.tail.head) {
        LiteralIsQuoteFree(s.tail.tail);
      }
    }
  }

  lemma {:induction false} LiteralStops(s: Text)
    ensures Stops(AfterLiteral(s))
  {
    if s.Cons? {
      if IsWord(s.head) {
        LiteralStops(s.tail);
      } else if s.tail.Cons? && IsWord(s.tail.head) {
        LiteralStops(s.tail.tail);
      }
    }
  }

  lemma StopsHere(s: Text)
    requires Stops(s) && s.Cons?
    ensures !IsWord(s.head) && Literal(s) == Nil
  {
  }

  lemma {:induction false} HexAcross(p: Text, h: Text)
    requires h.Cons? && !IsWord(h.head)
    ensures !AllHex(Append(p, h))
  {
    if p.Cons? {
      HexAcross(p.tail, h);
    }
  }

  /** A number cannot reach across a character that is in no word. */
  lemma {:induction false} NumberInside(afterWord: bool, p: Text, h: Text)
    requires h.Cons? && !IsWord(h.head)
    ensures HasNumber(afterWord, Append(p, h)) == EndsInNumber(h)
    decreases p
  {
    if p.Cons? {
      NumberInside(IsWord(p.head), p.tail, h);
      HexAcross(p.tail, h);
      if p.tail.Cons? {
        HexAcross(p.tail.tail, h);
      }
    }
  }

  /** A number at the end of p and h ends h, or h is empty. */
  lemma NumberBehind(p: Text, h: Text, y: Text)
    requires !EndsInNumber(h) && EndsInNumber(Append(p, h)) && (p.Nil? || Stops(Append(h, y)))
    ensures h.Nil? && p.Cons?
  {
    if p.Cons? && h.Cons? {
      StopsHere(Append(h, y));
      NumberInside(false, p, h);
    }
  }

  /** y starts with a quote that is not a separator: text without quotes before it stays, whether
      or not it ends in a number. */
  lemma CollapseBehind(q: Text, y: Text)
    requires QuoteFree(q) && y.Cons? && IsQuote(y.head) && Stops(y)
    requires y.head == '\'' && EndsInNumber(q)
    ensures Collapse(Append(q, y)) == Append(q, Collapse(y))
  {
    CutAt(q, y);
    StopsHere(y);
  }

  /** An empty literal stays as it is. */
  lemma CollapseEmpty(q: Text, c: char, u: Text)
    requires QuoteFree(q) && IsQuote(c)
    ensures var y := Cons(c, Cons(c, u));
            Collapse(Append(q, y)) == Append(q, Cons(c, Cons(c, Collapse(u))))
  {
    var y := Cons(c, Cons(c, u));
    CutAt(q, y);
    if c == '\'' && EndsInNumber(q) {
      CollapseBehind(q, y);
      CutAt(Nil, y);
    }
  }

  /** A quote that is not closed is left alone, also behind a number. */
  lemma CollapseOpen(p: Text, h: Text, y: Text)
    requires QuoteFree(p) && QuoteFree(h) && y.Cons? && IsQuote(y.head) && !Has(y.tail, y.head)
    requires y.head == '\'' ==> !EndsInNumber(h)
    requires p.Nil? || Stops(Append(h, y))
    ensures Collapse(Append(p, Append(h, y))) == Append(p, Append(h, y))
  {
    var q := Append(p, h);
    AppendAssoc(p, h, y);
    QuoteFreeAppend(p, h);
    CutAt(q, y);
    if y.head == '\'' && EndsInNumber(q) {
      NumberBehind(p, h, y);
      AppendNil(p);
      CollapseBehind(q, y);
      CutAt(Nil, y);
    }
  }

  /** Collapsing what has been collapsed, behind text p that has been dealt with. */
  lemma {:induction false} CollapseTwice(p: Text, s: Text)
    requires QuoteFree(p) && (p.Nil? || Stops(s))
    ensures Collapse(Append(p, Collapse(s))) == Append(p, Collapse(s))
    decreases Length(s)
  {
    var h, y := Head(s), FromQuote(s);
    Cut(s);
    QuoteFreeAppend(p, h);
    if y.Nil? {
      AppendNil(h);
      AppendNil(Append(p, h));
      CutAt(Append(p, h), Nil);
    } else if y.head == '\'' && EndsInNumber(h) {
      var u, rest := Literal(y), AfterLiteral(y);
      LiteralIsQuoteFree(y);
      LiteralStops(y);
      AppendAssoc(p, h, Append(u, Collapse(rest)));
      AppendAssoc(Append(p, h), u, Collapse(rest));
      QuoteFreeAppend(Append(p, h), u);
      CollapseTwice(Append(Append(p, h), u), rest);
    } else if Has(y.tail, y.head) {
      var rest := Beyond(y.tail, y.head);
      CollapseTwice(Nil, rest);
      AppendAssoc(p, h, Cons(y.head, Cons(y.head, Collapse(rest))));
      CollapseEmpty(Append(p, h), y.head, Collapse(rest));
    } else {
      CollapseOpen(p, h, y);
    }
  }

  /** Collapsing twice is collapsing once. */
  lemma Idempotent(s: Text)
    ensures Collapse(Collapse(s)) == Collapse(s)
  {
    CollapseTwice(Nil, s);
  }

  // ------------------------------------------------------------- what is left

  /** Every literal of s that is closed is empty, and no number has a separator. */
  predicate AllEmpty(s: Text)
    decreases Length(s)
  {
    var h, y := Head(s), FromQuote(s);
    y.Nil? ||
    if y.head == '\'' && EndsInNumber(h) then
      Stops(y) && AllEmpty(y)
    else
      Has(y.tail, y.head) ==> y.tail.head == y.head && AllEmpty(Beyond(y.tail, y.head))
  }

  lemma {:induction false} AppendCancel(h: Text, a: Text, b: Text)
    requires Append(h, a) == Append(h, b)
    ensures a == b
  {
    if h.Cons? {
      AppendCancel(h.tail, a, b);
    }
  }

  lemma StopsWithoutLiteral(y: Text)
    requires y.Cons? && IsQuote(y.head) && (Literal(y).Nil? || !IsQuote(Literal(y).head))
    ensures Literal(y).Nil? ==> Stops(y)
    ensures forall u :: Append(Literal(y), u) == y ==> Literal(y).Nil?
  {
  }

  /** A line is left as it is exactly when there is nothing to collapse in it. */
  lemma {:induction false} UnchangedWhenEmpty(s: Text)
    ensures Collapse(s) == s <==> AllEmpty(s)
    decreases Length(s)
  {
    var h, y := Head(s), FromQuote(s);
    Cut(s);
    if y.Cons? {
      if y.head == '\'' && EndsInNumber(h) {
        LiteralIsQuoteFree(y);
        StopsWithoutLiteral(y);
        UnchangedWhenEmpty(y);
        if Stops(y) {
          StopsHere(y);
        }
        if Collapse(s) == s {
          AppendCancel(h, Append(Literal(y), Collapse(AfterLiteral(y))), y);
        }
      } else if Has(y.tail, y.head) {
        UnchangedWhenEmpty(Beyond(y.tail, y.head));
        if Collapse(s) == s {
          AppendCancel(h, Cons(y.head, Cons(y.head, Collapse(Beyond(y.tail, y.head)))), y);
        }
      }
    }
  }

  /** So after collapsing, every closed literal is empty and no number has a separator. */
  lemma CollapsedIsEmpty(s: Text)
    ensures AllEmpty(Collapse(s))
  {
    Idempotent(s);
    UnchangedWhenEmpty(Collapse(s));
  }

  // ------------------------------------------------------------- which characters are kept

  lemma {:induction false} NoQuotes(h: Text)
    requires !Has(h, '\'') && !Has(h, '"')
    ensures QuoteFree(h)
  {
    if h.Cons? {
      NoQuotes(h.tail);
    }
  }

  lemma {:induction false} HasBeyond(body: Text, q: char, rest: Text)
    requires !Has(body, q)
    ensures Has(Append(body, Cons(q, rest)), q) && Beyond(Append(body, Cons(q, rest)), q) == rest
  {
    if body.Cons? {
      HasBeyond(body.tail, q, rest);
    }
  }

  /** A text without quotes stays. */
  lemma PlainStays(h: Text)
    requires !Has(h, '\'') && !Has(h, '"')
    ensures Collapse(h) == h
  {
    NoQuotes(h);
    AppendNil(h);
    CutAt(h, Nil);
  }

  /** Of a closed literal the quotes stay and the rest goes, and what is before it stays. */
  lemma LiteralCollapses(h: Text, q: char, body: Text, rest: Text)
    requires !Has(h, '\'') && !Has(h, '"') && !Has(body, q)
    requires q == '"' || (q == '\'' && !EndsInNumber(h))
    ensures Collapse(Append(h, Cons(q, Append(body, Cons(q, rest)))))
         == Append(h, Cons(q, Cons(q, Collapse(rest))))
  {
    NoQuotes(h);
    HasBeyond(body, q, rest);
    CutAt(h, Cons(q, Append(body, Cons(q, rest))));
  }

  /** From a quote on that is not closed, everything stays. */
  lemma UnclosedStays(h: Text, q: char, rest: Text)
    requires !Has(h, '\'') && !Has(h, '"') && !Has(rest, q)
    requires q == '"' || (q == '\'' && !EndsInNumber(h))
    ensures Collapse(Append(h, Cons(q, rest))) == Append(h, Cons(q, rest))
  {
    NoQuotes(h);
    CutAt(h, Cons(q, rest));
  }

  predicate AllWord(s: Text) {
    s.Nil? || (IsWord(s.head) && AllWord(s.tail))
  }

  /** Groups of digits, each after a separator. */
  function Separated(groups: seq<Text>): Text {
    if groups == [] then Nil
    else Cons('\'', Append(groups[0], Separated(groups[1..])))
  }

  /** The same without the separators. */
  function Joined(groups: seq<Text>): Text {
    if groups == [] then Nil else Append(groups[0], Joined(groups[1..]))
  }

  /** rest begins neither with a character of a word nor with a separator before one. */
  predicate EndsLiteral(rest: Text) {
    rest.Cons? ==>
      !IsWord(rest.head) && !(rest.head == '\'' && rest.tail.Cons? && IsWord(rest.tail.head))
  }

  lemma {:induction false} GroupOfDigits(group: Text, y: Text)
    requires AllWord(group)
    ensures Literal(Append(group, y)) == Append(group, Literal(y))
    ensures AfterLiteral(Append(group, y)) == AfterLiteral(y)
  {
    if group.Cons? {
      GroupOfDigits(group.tail, y);
    }
  }

  lemma {:induction false} DigitsKept(groups: seq<Text>, rest: Text)
    requires forall g :: g in groups ==> g.Cons? && AllWord(g)
    requires EndsLiteral(rest)
    ensures Literal(Append(Separated(groups), rest)) == Joined(groups)
    ensures AfterLiteral(Append(Separated(groups), rest)) == rest
    decreases |groups|
  {
    if groups != [] {
      var y := Append(Separated(groups[1..]), rest);
      DigitsKept(groups[1..], rest);
      AppendAssoc(groups[0], Separated(groups[1..]), rest);
      GroupOfDigits(groups[0].tail, y);
    }
  }

  /** After a number the separators go and all digits stay: 1'000'000 becomes 1000000. */
  lemma SeparatorsGo(h: Text, groups: seq<Text>, rest: Text)
    requires !Has(h, '\'') && !Has(h, '"') && EndsInNumber(h)
    requires forall g :: g in groups ==> g.Cons? && AllWord(g)
    requires EndsLiteral(rest) && (groups != [] || (rest.Cons? && rest.head == '\''))
    ensures Collapse(Append(h, Append(Separated(groups), rest))) == Append(h, Append(Joined(groups), Collapse(rest)))
  {
    NoQuotes(h);
    DigitsKept(groups, rest);
    CutAt(h, Append(Separated(groups), rest));
  }

  predicate EndsInWord(s: Text) {
    s.Cons? && if s.tail.Nil? then IsWord(s.head) else EndsInWord(s.tail)
  }

  /** The text ends in a number when it has an end that is one, and no character of a word before it. */
  lemma {:induction false} NumberAtEnd(s: Text)
    ensures EndsInNumber(s) <==> exists a, n :: Append(a, n) == s && !EndsInWord(a) && IsNumber(n)
  {
    if EndsInNumber(s) {
      var a, n := SplitNumber(false, s);
      assert Append(a, n) == s;
    }
    forall a, n | Append(a, n) == s && !EndsInWord(a) && IsNumber(n)
      ensures EndsInNumber(s)
    {
      NumberFound(false, a, n);
    }
  }

  lemma {:induction false} SplitNumber(afterWord: bool, s: Text) returns (a: Text, n: Text)
    requires HasNumber(afterWord, s)
    ensures Append(a, n) == s && IsNumber(n) && !EndsInWord(a) && (a.Nil? ==> !afterWord)
    decreases s
  {
    if !afterWord && IsNumber(s) {
      a, n := Nil, s;
    } else {
      a, n := SplitNumber(IsWord(s.head), s.tail);
      a := Cons(s.head, a);
    }
  }

  lemma {:induction false} NumberFound(afterWord: bool, a: Text, n: Text)
    requires IsNumber(n) && !EndsInWord(a) && (a.Nil? ==> !afterWord)
    ensures HasNumber(afterWord, Append(a, n))
    decreases a
  {
    if a.Cons? {
      NumberFound(IsWord(a.head), a.tail, n);
    }
  }

  predicate AllIn(s: Text, chars: string) {
    s.Nil? || (s.head in chars && AllIn(s.tail, chars))
  }

  lemma HexIs(c: char)
    ensures IsHex(c) <==> c in "0123456789abcdefABCDEF"
  {
    var digits := "0123456789abcdefABCDEF";
    if '0' <= c <= '9' {
      assert c == digits[c as int - '0' as int];
    } else if 'a' <= c <= 'f' {
      assert c == digits[10 + (c as int - 'a' as int)];
    } else if 'A' <= c <= 'F' {
      assert c == digits[16 + (c as int - 'A' as int)];
    }
  }

  lemma {:induction false} AllHexIs(s: Text)
    ensures AllHex(s) <==> AllIn(s, "0123456789abcdefABCDEF")
  {
    if s.Cons? {
      HexIs(s.head);
      AllHexIs(s.tail);
    }
  }

  /** A number is a digit, or 0 and one of b, B, x and X, and then hexadecimal digits. */
  lemma NumberIs(n: Text)
    ensures IsNumber(n)
       <==> || (n.Cons? && n.head in "0123456789" && AllIn(n.tail, "0123456789abcdefABCDEF"))
            || (n.Cons? && n.head == '0' && n.tail.Cons? && n.tail.head in "bBxX"
                && AllIn(n.tail.tail, "0123456789abcdefABCDEF"))
  {
    if n.Cons? {
      HexIs(n.head);
      AllHexIs(n.tail);
      if n.tail.Cons? {
        AllHexIs(n.tail.tail);
      }
    }
  }
}
