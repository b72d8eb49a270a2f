/** The Ninja text writer: escaping, the `rule` and `build` statements,
    variables, and the word-wrapping of long lines. The writer's output
    stream is modelled as the text each call appends to it. */
module NinjaSyntax {
  import opened Wrappers
  import opened Strs
  import opened Values
  import opened Seqs

  // ---------------------------------------------------------------------
  // Path escaping

  /** `_escape_path`: escape the characters significant inside a build
      statement (space and colon); dollar signs are left as they are. */
  function EscapePath(word: string): string
  {
    Replace(Replace(Replace(word, "$ ", "$$ "), " ", "$ "), ":", "$:")
  }

  /** What `EscapePath` does to one character, given whether the character
      before it was a `$`. */
  function EscapePiece(c: char, afterDollar: bool): string
  {
    if c == ' ' then (if afterDollar then "$$ " else "$ ")
    else if c == ':' then "$:"
    else [c]
  }

  /** Character-wise reference for `EscapePath`: a space becomes `$ ` (or
      `$$ ` after a `$`), a colon becomes `$:`, and every other character is
      copied unchanged. */
  function EscapePathRef(w: string, afterDollar: bool): string
    decreases |w|
  {
    if |w| == 0 then "" else EscapePiece(w[0], afterDollar) + EscapePathRef(w[1..], w[0] == '$')
  }

  /** The two one-character passes of `EscapePath`, as a single map. */
  function EscapeSpaceColon(t: string): string
  {
    Replace(Replace(t, " ", "$ "), ":", "$:")
  }

  lemma {:induction false} EscapeSpaceColonAppend(a: string, b: string)
    ensures EscapeSpaceColon(a + b) == EscapeSpaceColon(a) + EscapeSpaceColon(b)
  {
    ReplaceCharAppend(a, b, ' ', "$ ");
    ReplaceCharAppend(Replace(a, " ", "$ "), Replace(b, " ", "$ "), ':', "$:");
  }

  lemma {:induction false} EscapeSpaceColonChar(c: char)
    ensures EscapeSpaceColon([c]) == EscapePiece(c, false)
  {
    ReplaceCharSingle(c, ' ', "$ ");
    if c == ' ' {
      ReplaceCharAppend("$", " ", ':', "$:");
      ReplaceCharSingle('$', ':', "$:");
      ReplaceCharSingle(' ', ':', "$:");
      assert "$ " == "$" + " ";
    } else {
      ReplaceCharSingle(c, ':', "$:");
    }
  }

  lemma {:induction false} EscapeRefFirstNotSpace(t: string)
    requires |t| == 0 || t[0] != ' '
    ensures EscapePathRef(t, true) == EscapePathRef(t, false)
  {
  }

  /** `EscapePath` equals its character-wise description: the three
      replacement passes change nothing but spaces and colons. */
  lemma {:induction false} EscapePathIsCharwise(w: string)
    ensures EscapePath(w) == EscapePathRef(w, false)
    decreases |w|
  {
    var p1 := Replace(w, "$ ", "$$ ");
    if |w| < 2 {
      assert p1 == w;
      if |w| == 1 {
        EscapeSpaceColonChar(w[0]);
        assert w[1..] == [];
      }
    } else if w[..2] == "$ " {
      EscapePathIsCharwise(w[2..]);
      DollarSpaceStep(w);
    } else {
      EscapePathIsCharwise(w[1..]);
      OtherStep(w);
    }
  }

  /** The escape of the three characters `$$ `. */
  lemma {:induction false} EscapeDollarDollarSpace()
    ensures EscapeSpaceColon("$$ ") == "$$$ "
  {
    assert "$$ " == [ '$' ] + [ '$' ] + [ ' ' ];
    EscapeSpaceColonAppend([ '$' ] + [ '$' ], [ ' ' ]);
    EscapeSpaceColonAppend([ '$' ], [ '$' ]);
    EscapeSpaceColonChar('$');
    EscapeSpaceColonChar(' ');
  }

  lemma {:induction false} DollarSpaceStep(w: string)
    requires |w| >= 2 && w[..2] == "$ "
    requires EscapePath(w[2..]) == EscapePathRef(w[2..], false)
    ensures EscapePath(w) == EscapePathRef(w, false)
  {
    var rest := Replace(w[2..], "$ ", "$$ ");
    assert Replace(w, "$ ", "$$ ") == "$$ " + rest;
    EscapeSpaceColonAppend("$$ ", rest);
    EscapeDollarDollarSpace();
    assert EscapePath(w) == "$$$ " + EscapePath(w[2..]);
    RefDollarSpace(w);
  }

  lemma {:induction false} RefDollarSpace(w: string)
    requires |w| >= 2 && w[..2] == "$ "
    ensures EscapePathRef(w, false) == "$$$ " + EscapePathRef(w[2..], false)
  {
    assert w[0] == '$' && w[1] == ' ';
    var v := w[1..];
    assert v[0] == ' ' && v[1..] == w[2..];
    assert EscapePathRef(v, true) == EscapePiece(' ', true) + EscapePathRef(w[2..], false);
    assert EscapePathRef(w, false) == EscapePiece('$', false) + EscapePathRef(v, true);
    assert EscapePiece('$', false) + EscapePiece(' ', true) == "$$$ ";
  }

  lemma {:induction false} OtherStep(w: string)
    requires |w| >= 2 && w[..2] != "$ "
    requires EscapePath(w[1..]) == EscapePathRef(w[1..], false)
    ensures EscapePath(w) == EscapePathRef(w, false)
  {
    assert Replace(w, "$ ", "$$ ") == [w[0]] + Replace(w[1..], "$ ", "$$ ");
    EscapeSpaceColonAppend([w[0]], Replace(w[1..], "$ ", "$$ "));
    EscapeSpaceColonChar(w[0]);
    if w[0] == '$' {
      assert w[1] != ' ';
      EscapeRefFirstNotSpace(w[1..]);
    }
  }

  /** Reading one path word of a build statement the way Ninja does:
      `$ `, `$:` and `$$` stand for a space, a colon and a dollar; any other
      `$x` is kept as written; an unescaped space or colon, or a trailing
      `$`, would end or break the word and yields `None`. */
  function ReadPathWord(s: string): Option<string>
    decreases |s|
  {
    if |s| == 0 then Some("")
    else if s[0] == '$' then
      if |s| == 1 then None
      else
        match ReadPathWord(s[2..])
        case None => None
        case Some(rest) =>
          Some((if s[1] in {' ', ':', '$'} then [s[1]] else ['$', s[1]]) + rest)
    else if s[0] == ' ' || s[0] == ':' then None
    else
      match ReadPathWord(s[1..])
      case None => None
      case Some(rest) => Some([s[0]] + rest)
  }

  /** A path without dollar signs is escaped into exactly one Ninja word
      that reads back as the path itself. */
  lemma {:induction false} EscapePathRoundTrip(w: string)
    requires '$' !in w
    ensures ReadPathWord(EscapePath(w)) == Some(w)
  {
    EscapePathIsCharwise(w);
    RefRoundTrip(w);
  }

  lemma {:induction false} RefRoundTrip(w: string)
    requires '$' !in w
    ensures ReadPathWord(EscapePathRef(w, false)) == Some(w)
    decreases |w|
  {
    if |w| > 0 {
      RefRoundTrip(w[1..]);
      var rest := EscapePathRef(w[1..], false);
      assert EscapePathRef(w, false) == EscapePiece(w[0], false) + rest;
      if w[0] == ' ' || w[0] == ':' {
        assert (EscapePiece(w[0], false) + rest)[2..] == rest;
      } else {
        assert ([w[0]] + rest)[1..] == rest;
      }
      assert w == [w[0]] + w[1..];
    }
  }

  /** A word that contains no `$` after escaping was not changed. */
  lemma {:induction false} EscapeWithoutDollar(w: string, afterDollar: bool)
    requires '$' !in EscapePathRef(w, afterDollar)
    ensures EscapePathRef(w, afterDollar) == w
    decreases |w|
  {
    if |w| > 0 {
      var rest := EscapePathRef(w[1..], w[0] == '$');
      var piece := EscapePiece(w[0], afterDollar);
      assert EscapePathRef(w, afterDollar) == piece + rest;
      assert forall k :: 0 <= k < |piece| ==> piece[k] == EscapePathRef(w, afterDollar)[k];
      assert forall k :: 0 <= k < |rest| ==> rest[k] == EscapePathRef(w, afterDollar)[|piece| + k];
      assert '$' !in piece;
      assert '$' !in rest;
      EscapeWithoutDollar(w[1..], w[0] == '$');
      assert w == [w[0]] + w[1..];
    }
  }

  /** `EscapePath` leaves `|` and `||` markers alone, and produces them
      only from a path that is literally `|` or `||`. */
  lemma {:induction false} EscapePathMarker(w: string, marker: string)
    requires marker == "|" || marker == "||"
    ensures EscapePath(w) == marker <==> w == marker
  {
    EscapePathIsCharwise(w);
    if EscapePath(w) == marker {
      EscapeWithoutDollar(w, false);
    }
    if w == marker {
      if marker == "|" {
        assert marker[1..] == "";
      } else {
        assert marker[1..] == "|";
        assert marker[1..][1..] == "";
        assert EscapePathRef(marker[1..], false) == "|";
        assert EscapePathRef(marker, false) == "|" + "|";
      }
    }
  }

  // ---------------------------------------------------------------------
  // Value escaping

  /** `escape`: double every `$`; a string holding a newline is refused. */
  function Escape(s: string): (r: Result<string, string>)
    ensures r.Success? <==> '\n' !in s
    ensures r.Success? ==> UnescapeValue(r.value) == Some(s)
  {
    if '\n' in s then Failure("Ninja syntax does not allow newlines")
    else
      EscapeRoundTrip(s);
      Success(Replace(s, "$", "$$"))
  }

  /** Reading a variable value back: `$$` is one dollar, every other
      character stands for itself, and any other use of `$` is rejected. */
  function UnescapeValue(s: string): Option<string>
    decreases |s|
  {
    if |s| == 0 then Some("")
    else if s[0] == '$' then
      if |s| >= 2 && s[1] == '$' then
        match UnescapeValue(s[2..])
        case None => None
        case Some(rest) => Some("$" + rest)
      else None
    else
      match UnescapeValue(s[1..])
      case None => None
      case Some(rest) => Some([s[0]] + rest)
  }

  lemma {:induction false} EscapeRoundTrip(s: string)
    ensures UnescapeValue(Replace(s, "$", "$$")) == Some(s)
    decreases |s|
  {
    if |s| > 0 {
      assert s == [s[0]] + s[1..];
      ReplaceCharAppend([s[0]], s[1..], '$', "$$");
      ReplaceCharSingle(s[0], '$', "$$");
      EscapeRoundTrip(s[1..]);
      var rest := Replace(s[1..], "$", "$$");
      if s[0] == '$' {
        assert ("$$" + rest)[2..] == rest;
      } else {
        assert ([s[0]] + rest)[1..] == rest;
      }
    }
  }

  // ---------------------------------------------------------------------
  // Values as iterables

  /** `_as_iterable`: a string is one value, `None` is no value, a list is
      passed through, and any other value is one value. */
  function AsIterable(v: PyValue): seq<PyValue>
  {
    match v
    case PyStr(_) => [v]
    case PyList(items) => items
    case PyNone => []
    case _ => [v]
  }

  /** `filter(None, items)`: the truthy items, in order. */
  function KeepTruthy(items: seq<PyValue>): (r: seq<PyValue>)
    ensures forall x :: x in r <==> x in items && Truthy(x)
    ensures IsSubseq(r, items)
  {
    Filter(items, Truthy)
  }

  /** The strings of a list of string values. */
  function Texts(items: seq<PyValue>): (r: seq<string>)
    ensures |r| == |items|
    ensures forall i :: 0 <= i < |items| && items[i].PyStr? ==> r[i] == items[i].s
  {
    seq(|items|, i requires 0 <= i < |items| => if items[i].PyStr? then items[i].s else "")
  }

  /** `' '.join(items)`: every item must be a string, and the strings are
      joined with single spaces. */
  function JoinValues(items: seq<PyValue>): (r: Result<string, string>)
    ensures r.Success? <==> forall x :: x in items ==> x.PyStr?
    ensures r.Success? ==> r.value == Join(Texts(items), " ")
    decreases |items|
  {
    if |items| == 0 then Success("")
    else if !items[0].PyStr? then Failure("sequence item: expected str instance")
    else
      match JoinValues(items[1..])
      case Failure(e) => Failure(e)
      case Success(rest) =>
        assert Texts(items)[1..] == Texts(items[1..]);
        Success(if |items| == 1 then items[0].s else items[0].s + " " + rest)
  }

  // ---------------------------------------------------------------------
  // Line wrapping

  /** `_count_dollars_before_index`: the length of the run of `$` that ends
      just before index `i`, where index 0 is never counted. */
  function DollarsBefore(s: string, i: int): (r: nat)
    requires i <= |s| || i <= 1
    ensures r <= (if i - 1 > 0 then i - 1 else 0)
    ensures forall k :: i - r <= k < i ==> s[k] == '$'
    ensures i - r - 1 <= 0 || s[i - r - 1] != '$'
    decreases i
  {
    if i - 1 > 0 && s[i - 1] == '$' then 1 + DollarsBefore(s, i - 1) else 0
  }

  /** The loop of `_count_dollars_before_index`, step by step. */
  method CountDollarsBeforeIndex(s: string, i: int) returns (count: nat)
    requires i <= |s| || i <= 1
    ensures count == DollarsBefore(s, i)
  {
    count := 0;
    var index := i - 1;
    while index > 0 && s[index] == '$'
      invariant index <= i - 1
      invariant index < |s| || index <= 0
      invariant count == i - 1 - index
      invariant DollarsBefore(s, i) == count + DollarsBefore(s, index + 1)
      decreases index
    {
      count := count + 1;
      index := index - 1;
    }
  }

  /** A space at which `_line` may break: one not escaped by an odd run of `$`. */
  predicate Eligible(text: string, j: int)
  {
    0 <= j < |text| && text[j] == ' ' && DollarsBefore(text, j) % 2 == 0
  }

  /** The first search loop of `_line`: from a space found by `rfind`, keep
      searching leftwards until the space is eligible. */
  function RFindEligible(text: string, sp: int): (r: int)
    requires -1 <= sp < |text|
    requires sp >= 0 ==> text[sp] == ' '
    ensures r == -1 || Eligible(text, r)
    ensures r <= sp
    ensures forall j :: r < j <= sp ==> !Eligible(text, j)
    decreases sp + 1
  {
    if sp < 0 || DollarsBefore(text, sp) % 2 == 0 then sp
    else RFindEligible(text, RFind(text, ' ', sp))
  }

  /** The second search loop of `_line`: from a space found by `find`, keep
      searching rightwards until the space is eligible. `from` is where the
      search began. */
  function FindEligible(text: string, sp: int, from: nat): (r: int)
    requires -1 <= sp < |text|
    requires sp >= 0 ==> text[sp] == ' ' && from <= sp
    requires forall j :: from <= j < |text| && (sp < 0 || j < sp) ==> !Eligible(text, j)
    ensures r == -1 || Eligible(text, r)
    ensures r == -1 || r >= from
    ensures forall j :: from <= j < |text| && (r < 0 || j < r) ==> !Eligible(text, j)
    decreases if sp < 0 then 0 else |text| - sp + 1
  {
    if sp < 0 || DollarsBefore(text, sp) % 2 == 0 then sp
    else FindEligible(text, Find(text, ' ', sp + 1), from)
  }

  /** Where `_line` breaks `text` when `avail` columns are available: the
      rightmost eligible space left of the limit `e`; failing that, the
      leftmost eligible space at or after it; failing that, -1. */
  function BreakPoint(text: string, avail: int): (sp: int)
    ensures sp == -1 || Eligible(text, sp)
    ensures 0 <= sp < ClampIndex(avail, |text|) ==>
      forall j :: sp < j < ClampIndex(avail, |text|) ==> !Eligible(text, j)
    ensures sp >= ClampIndex(avail, |text|) ==> forall j :: 0 <= j < sp ==> !Eligible(text, j)
    ensures sp == -1 <==> NoBreak(text)
  {
    var e := ClampIndex(avail, |text|);
    var left := RFindEligible(text, RFind(text, ' ', avail));
    if left >= 0 then left
    else
      var right := FindEligible(text, Find(text, ' ', avail), e);
      assert forall j :: 0 <= j < e ==> !Eligible(text, j);
      right
  }

  /** Every chunk but the last ends, in the text that remained when it was
      cut, at an eligible space. */
  predicate BreaksEligible(chunks: seq<string>)
  {
    |chunks| <= 1 ||
    (var rest := Join(chunks, " ");
     |chunks[0]| < |rest| && Eligible(rest, |chunks[0]|) && BreaksEligible(chunks[1..]))
  }

  /** `text` has no space `_line` may break at. */
  predicate NoBreak(text: string)
  {
    forall j :: 0 <= j < |text| ==> !Eligible(text, j)
  }

  /** The last chunk fits after its indentation, or cannot be broken. */
  predicate LastChunkFinal(chunks: seq<string>, lead: nat, cont: nat, width: int)
    requires |chunks| >= 1
  {
    var last := chunks[|chunks| - 1];
    var ind := if |chunks| == 1 then lead else cont;
    ind + |last| <= width || NoBreak(last)
  }

  /** The chunks `_line` writes for `text`: each chunk but the last is
      followed in the output by ` $` and a newline, and the space after it
      in the text is dropped. `lead` is the width of the indentation of the
      first output line, `cont` that of the continuation lines. */
  function LineChunks(text: string, lead: nat, cont: nat, width: int): (chunks: seq<string>)
    ensures |chunks| >= 1
    ensures Join(chunks, " ") == text
    ensures BreaksEligible(chunks)
    ensures LastChunkFinal(chunks, lead, cont, width)
    decreases |text|
  {
    if lead + |text| <= width then [text]
    else
      var sp := BreakPoint(text, width - lead - 2);
      if sp < 0 then [text]
      else
        var tail := LineChunks(text[sp + 1..], cont, cont, width);
        LineChunksStep(text, sp, tail, lead, cont, width);
        [text[..sp]] + tail
  }

  lemma {:induction false} LineChunksStep(text: string, sp: nat, tail: seq<string>, lead: nat, cont: nat, width: int)
    requires Eligible(text, sp)
    requires |tail| >= 1 && Join(tail, " ") == text[sp + 1..]
    requires BreaksEligible(tail)
    requires LastChunkFinal(tail, cont, cont, width)
    ensures Join([text[..sp]] + tail, " ") == text
    ensures BreaksEligible([text[..sp]] + tail)
    ensures LastChunkFinal([text[..sp]] + tail, lead, cont, width)
  {
    ChunksJoin(text, sp, tail);
    ChunksBreaks(text, sp, tail);
    ChunksLast(text, sp, tail, lead, cont, width);
  }

  lemma {:induction false} ChunksJoin(text: string, sp: nat, tail: seq<string>)
    requires Eligible(text, sp)
    requires |tail| >= 1 && Join(tail, " ") == text[sp + 1..]
    ensures Join([text[..sp]] + tail, " ") == text
  {
    var chunks := [text[..sp]] + tail;
    assert text == text[..sp] + " " + text[sp + 1..] by {
      assert text == text[..sp] + text[sp..sp + 1] + text[sp + 1..];
    }
    assert chunks[1..] == tail;
  }

  lemma {:induction false} ChunksBreaks(text: string, sp: nat, tail: seq<string>)
    requires Eligible(text, sp)
    requires |tail| >= 1
    requires Join([text[..sp]] + tail, " ") == text
    requires BreaksEligible(tail)
    ensures BreaksEligible([text[..sp]] + tail)
  {
    var chunks := [text[..sp]] + tail;
    assert chunks[1..] == tail;
  }

  lemma {:induction false} ChunksLast(text: string, sp: nat, tail: seq<string>, lead: nat, cont: nat, width: int)
    requires sp <= |text|
    requires |tail| >= 1
    requires LastChunkFinal(tail, cont, cont, width)
    ensures LastChunkFinal([text[..sp]] + tail, lead, cont, width)
  {
    var chunks := [text[..sp]] + tail;
    assert chunks[|chunks| - 1] == tail[|tail| - 1];
  }

  function Spaces(n: nat): (r: string)
    ensures |r| == n
    ensures forall c :: c in r ==> c == ' '
  {
    if n == 0 then "" else " " + Spaces(n - 1)
  }

  /** The output lines for a list of chunks: the first after `lead`, the
      others after `cont`, all but the last ending in ` $`. */
  function Render(chunks: seq<string>, lead: string, cont: string): string
    requires |chunks| >= 1
  {
    if |chunks| == 1 then lead + chunks[0] + "\n"
    else lead + chunks[0] + " $\n" + Render(chunks[1..], cont, cont)
  }

  /** `_line`: `text` word-wrapped at `width` columns, at indentation level `indent`. */
  function Line(text: string, indent: nat, width: int): string
  {
    Render(LineChunks(text, 2 * indent, 2 * (indent + 2), width), Spaces(2 * indent), Spaces(2 * (indent + 2)))
  }

  /** A line that fits is written unchanged, and so is one with no
      eligible space to break at. */
  lemma {:induction false} LineUnbroken(text: string, indent: nat, width: int)
    requires 2 * indent + |text| <= width || NoBreak(text)
    ensures Line(text, indent, width) == Spaces(2 * indent) + text + "\n"
  {
    var chunks := LineChunks(text, 2 * indent, 2 * (indent + 2), width);
    if 2 * indent + |text| > width {
      assert BreakPoint(text, width - 2 * indent - 2) == -1;
    }
    assert chunks == [text];
  }

  // ---------------------------------------------------------------------
  // Statements

  /** `variable`: `key = value` with the truthy items of `value` joined by
      spaces; nothing at all when no item is truthy. */
  function Variable(key: string, value: PyValue, indent: nat, width: int): (r: Result<string, string>)
    ensures r.Failure? <==> exists x :: x in AsIterable(value) && Truthy(x) && !x.PyStr?
    ensures r.Success? ==> (r.value == "" <==> forall x :: x in AsIterable(value) ==> !Truthy(x))
    ensures r.Success? && r.value != "" ==>
      r.value == Line(key + " = " + Join(Texts(KeepTruthy(AsIterable(value))), " "), indent, width)
  {
    var kept := KeepTruthy(AsIterable(value));
    match JoinValues(kept)
    case Failure(e) => Failure(e)
    case Success(joined) =>
      JoinTruthyNonEmpty(kept);
      if joined != "" then Success(Line(key + " = " + joined, indent, width)) else Success("")
  }

  lemma {:induction false} JoinTruthyNonEmpty(items: seq<PyValue>)
    requires forall x :: x in items ==> x.PyStr? && Truthy(x)
    requires JoinValues(items).Success?
    ensures JoinValues(items).value == "" <==> |items| == 0
  {
    if |items| > 0 {
      assert items[0] in items;
    }
  }

  /** A list of non-empty strings is written as `key = ` and the strings
      joined by spaces, wrapped: the text is the first chunk after the
      indentation, each further chunk on a continuation line, and the
      chunks joined by single spaces give back `key = x1 x2 ...`. */
  lemma {:induction false} VariableWritten(key: string, xs: seq<string>, indent: nat, width: int)
    requires |xs| > 0 && forall i :: 0 <= i < |xs| ==> xs[i] != ""
    ensures exists chunks :: (|chunks| >= 1
      && Variable(key, PyList(StrList(xs)), indent, width) == Success(Render(chunks, Spaces(2 * indent), Spaces(2 * (indent + 2))))
      && Join(chunks, " ") == key + " = " + Join(xs, " "))
  {
    var items := StrList(xs);
    KeepAllStrings(xs);
    TextsOfStrings(xs);
    var text := key + " = " + Join(xs, " ");
    var v := Variable(key, PyList(items), indent, width);
    assert v.Success? && v.value != "" by {
      assert forall x :: x in AsIterable(PyList(items)) ==> x.PyStr? && Truthy(x);
      assert items[0] in AsIterable(PyList(items));
    }
    assert v.value == Line(text, indent, width);
    var chunks := LineChunks(text, 2 * indent, 2 * (indent + 2), width);
    assert v == Success(Render(chunks, Spaces(2 * indent), Spaces(2 * (indent + 2))));
  }

  /** Non-empty strings are all kept. */
  lemma {:induction false} KeepAllStrings(xs: seq<string>)
    requires forall i :: 0 <= i < |xs| ==> xs[i] != ""
    ensures KeepTruthy(AsIterable(PyList(StrList(xs)))) == StrList(xs)
  {
    var items := StrList(xs);
    assert AsIterable(PyList(items)) == items;
    assert forall i :: 0 <= i < |items| ==> Truthy(items[i]);
    FilterKeepsAll(items, Truthy);
  }

  /** The texts of a list of strings are the strings. */
  lemma {:induction false} TextsOfStrings(xs: seq<string>)
    ensures Texts(StrList(xs)) == xs
  {
    var items := StrList(xs);
    assert forall i :: 0 <= i < |xs| ==> Texts(items)[i] == xs[i];
  }

  /** A single non-empty string is written as the line `key = s`; `None`
      and `False` write nothing. */
  lemma {:induction false} VariableScalar(key: string, s: string, indent: nat, width: int)
    ensures s != "" ==> Variable(key, PyStr(s), indent, width) == Success(Line(key + " = " + s, indent, width))
    ensures Variable(key, PyNone, indent, width) == Success("")
    ensures Variable(key, PyBool(false), indent, width) == Success("")
  {
    assert Filter([PyStr(s)], Truthy) == (if s != "" then [PyStr(s)] else []) + Filter([PyStr(s)][1..], Truthy);
    assert Filter([PyBool(false)], Truthy) == Filter([PyBool(false)][1..], Truthy);
    if s != "" {
      assert Texts([PyStr(s)]) == [s];
    }
  }

  /** The keyword arguments of `rule`. */
  datatype RuleDecl = RuleDecl(
    command: PyValue,
    description: PyValue,
    depfile: PyValue,
    generator: bool,
    pool: PyValue,
    restat: bool,
    rspfile: PyValue,
    rspfileContent: PyValue,
    deps: PyValue)

  function CommandRule(command: string, description: string): RuleDecl
  {
    RuleDecl(PyStr(command), PyStr(description), PyNone, false, PyNone, false, PyNone, PyNone, PyNone)
  }

  /** `generator and '1'` (and the same for `restat`). */
  function FlagValue(b: bool): PyValue
  {
    if b then PyStr("1") else PyBool(false)
  }

  /** The variables of a rule, in the order `rule` writes them. */
  function RuleVariables(d: RuleDecl): seq<(string, PyValue)>
  {
    [("command", d.command), ("description", d.description), ("depfile", d.depfile),
     ("pool", d.pool), ("rspfile", d.rspfile), ("rspfile_content", d.rspfileContent),
     ("deps", d.deps), ("generator", FlagValue(d.generator)), ("restat", FlagValue(d.restat))]
  }

  /** Each of `vars` written by `variable` at indentation level `indent`. */
  function Variables(vars: seq<(string, PyValue)>, indent: nat, width: int): (r: Result<string, string>)
    ensures r.Failure? <==> exists i :: 0 <= i < |vars| && Variable(vars[i].0, vars[i].1, indent, width).Failure?
    ensures r.Success? && |vars| > 0 ==>
      StartsWith(r.value, Variable(vars[0].0, vars[0].1, indent, width).value)
    decreases |vars|
  {
    if |vars| == 0 then Success("")
    else
      match Variable(vars[0].0, vars[0].1, indent, width)
      case Failure(e) => Failure(e)
      case Success(head) =>
        match Variables(vars[1..], indent, width)
        case Failure(e) =>
          var i :| 0 <= i < |vars[1..]| && Variable(vars[1..][i].0, vars[1..][i].1, indent, width).Failure?;
          assert vars[i + 1] == vars[1..][i];
          Failure(e)
        case Success(tail) =>
          assert forall i :: 1 <= i < |vars| ==> vars[i] == vars[1..][i - 1];
          Success(head + tail)
  }

  /** `rule`: the `rule NAME` line, then the rule's variables indented one level. */
  function Rule(name: string, d: RuleDecl, width: int): (r: Result<string, string>)
    ensures r.Success? ==> StartsWith(r.value, Line("rule " + name, 0, width))
    ensures r.Failure? <==> exists i :: 0 <= i < 9 && Variable(RuleVariables(d)[i].0, RuleVariables(d)[i].1, 1, width).Failure?
  {
    var vars := RuleVariables(d);
    match Variables(vars, 1, width)
    case Failure(e) => Failure(e)
    case Success(body) =>
      Success(Line("rule " + name, 0, width) + body)
  }

  /** A rule with a command and a description and no other setting is
      written as its `rule` line, the indented `command` and `description`
      lines, and `generator = 1` when it is a generator. */
  lemma {:induction false} RuleWritten(name: string, command: string, description: string, generator: bool, width: int)
    requires command != "" && description != ""
    ensures Rule(name, CommandRule(command, description).(generator := generator), width) ==
      Success(Line("rule " + name, 0, width)
              + Line("command = " + command, 1, width)
              + Line("description = " + description, 1, width)
              + (if generator then Line("generator = 1", 1, width) else ""))
  {
    var d := CommandRule(command, description).(generator := generator);
    var vars := RuleVariables(d);
    var c := Line("command = " + command, 1, width);
    var e := Line("description = " + description, 1, width);
    var g := if generator then Line("generator = 1", 1, width) else "";
    assert Variables(vars[1..], 1, width) == Success(e + g) by {
      VariableScalar("description", description, 1, width);
      KeyTexts(command, description);
      RuleOptionsWritten(d, width);
      VariablesStep(vars[1..], 1, width);
      assert vars[1..][1..] == vars[2..];
    }
    assert Variables(vars, 1, width) == Success(c + (e + g)) by {
      VariableScalar("command", command, 1, width);
      KeyTexts(command, description);
      VariablesStep(vars, 1, width);
    }
    var l := Line("rule " + name, 0, width);
    assert Rule(name, d, width) == Success(l + (c + (e + g)));
    Regroup(l, c, e, g);
  }

  lemma Regroup(l: string, c: string, e: string, g: string)
    ensures l + (c + (e + g)) == l + c + e + g
  {
  }

  /** After its command and description, a rule with no other setting
      writes only `generator = 1`, and that only when it is a generator. */
  lemma {:induction false} RuleOptionsWritten(d: RuleDecl, width: int)
    requires d.depfile == PyNone && d.pool == PyNone && d.rspfile == PyNone
    requires d.rspfileContent == PyNone && d.deps == PyNone && !d.restat
    ensures Variables(RuleVariables(d)[2..], 1, width) ==
      Success(if d.generator then Line("generator = 1", 1, width) else "")
  {
    var vars := RuleVariables(d);
    SkipSilent(vars[2..], 5, 1, width);
    assert vars[2..][5..] == vars[7..];
    FlagsWritten(d, width);
  }

  /** The last two variables of a rule that does not restat write
      `generator = 1` for a generator and nothing otherwise. */
  lemma {:induction false} FlagsWritten(d: RuleDecl, width: int)
    requires !d.restat
    ensures Variables(RuleVariables(d)[7..], 1, width) ==
      Success(if d.generator then Line("generator = 1", 1, width) else "")
  {
    var tail := RuleVariables(d)[7..];
    var g := if d.generator then Line("generator = 1", 1, width) else "";
    assert Variables(tail[1..], 1, width) == Success("") by {
      SilentVariables(tail[1..], 1, width);
    }
    assert tail[0] == ("generator", FlagValue(d.generator));
    assert Variable("generator", FlagValue(d.generator), 1, width) == Success(g) by {
      if d.generator {
        VariableScalar("generator", "1", 1, width);
        GeneratorText();
      } else {
        VariableScalar("generator", "", 1, width);
      }
    }
    assert Variables(tail, 1, width) == Success(g + "") by {
      VariablesStep(tail, 1, width);
    }
    assert g + "" == g;
  }

  lemma KeyTexts(command: string, description: string)
    ensures "command" + " = " + command == "command = " + command
    ensures "description" + " = " + description == "description = " + description
  {
  }

  lemma GeneratorText()
    ensures "generator" + " = " + "1" == "generator = 1"
  {
  }

  /** Writing a list of variables is writing the first, then the rest. */
  lemma {:induction false} VariablesStep(vars: seq<(string, PyValue)>, indent: nat, width: int)
    requires |vars| > 0
    ensures Variables(vars, indent, width) ==
      match Variable(vars[0].0, vars[0].1, indent, width)
      case Failure(e) => Failure(e)
      case Success(head) =>
        match Variables(vars[1..], indent, width)
        case Failure(e) => Failure(e)
        case Success(tail) => Success(head + tail)
  {
  }

  /** Variables whose values are `None` or `False` write nothing. */
  lemma {:induction false} SilentVariables(vars: seq<(string, PyValue)>, indent: nat, width: int)
    requires forall i :: 0 <= i < |vars| ==> vars[i].1 == PyNone || vars[i].1 == PyBool(false)
    ensures Variables(vars, indent, width) == Success("")
    decreases |vars|
  {
    if |vars| > 0 {
      VariableScalar(vars[0].0, "", indent, width);
      SilentVariables(vars[1..], indent, width);
    }
  }

  /** Leading variables whose values are `None` or `False` write nothing:
      what is written is what the rest writes. */
  lemma {:induction false} SkipSilent(vars: seq<(string, PyValue)>, k: nat, indent: nat, width: int)
    requires k <= |vars|
    requires forall i :: 0 <= i < k ==> vars[i].1 == PyNone || vars[i].1 == PyBool(false)
    ensures Variables(vars, indent, width) == Variables(vars[k..], indent, width)
    decreases k
  {
    if k > 0 {
      VariableScalar(vars[0].0, "", indent, width);
      SkipSilent(vars[1..], k - 1, indent, width);
      assert vars[1..][k - 1..] == vars[k..];
    }
  }

  /** The keyword arguments of `build`, as carried by a product's dicts;
      an absent key is an empty list (or `None`). */
  datatype BuildArgs = BuildArgs(
    outputs: seq<string>,
    rule: string,
    inputs: seq<string>,
    implicit: seq<string>,
    orderOnly: seq<string>,
    implicitOutputs: seq<string>,
    variables: seq<(string, PyValue)>,
    dyndep: Option<string>)

  function MapEscape(paths: seq<string>): (r: seq<string>)
    ensures |r| == |paths|
    ensures forall i :: 0 <= i < |paths| ==> r[i] == EscapePath(paths[i])
  {
    if |paths| == 0 then [] else [EscapePath(paths[0])] + MapEscape(paths[1..])
  }

  /** The words left of the colon: escaped outputs, then `|` and the
      escaped implicit outputs when there are any. */
  function OutputWords(a: BuildArgs): seq<string>
  {
    MapEscape(a.outputs) + (if |a.implicitOutputs| > 0 then ["|"] + MapEscape(a.implicitOutputs) else [])
  }

  /** The words after the rule: escaped inputs, then `|` and the implicit
      inputs, then `||` and the order-only inputs, each section only when
      its list is non-empty. */
  function InputWords(a: BuildArgs): seq<string>
  {
    MapEscape(a.inputs)
    + (if |a.implicit| > 0 then ["|"] + MapEscape(a.implicit) else [])
    + (if |a.orderOnly| > 0 then ["||"] + MapEscape(a.orderOnly) else [])
  }

  /** The `build` line before wrapping. */
  function BuildLine(a: BuildArgs): string
  {
    "build " + Join(OutputWords(a), " ") + ": " + a.rule + " " + Join(InputWords(a), " ")
  }

  /** `build`: the wrapped build line, then `dyndep` and the variables
      indented one level. */
  function Build(a: BuildArgs, width: int): (r: Result<string, string>)
    ensures r.Success? ==> StartsWith(r.value, Line(BuildLine(a), 0, width))
    ensures r.Failure? ==> Variables(a.variables, 1, width).Failure?
  {
    var dyn := match a.dyndep case None => PyNone case Some(s) => PyStr(s);
    match Variables([("dyndep", dyn)] + a.variables, 1, width)
    case Failure(e) =>
      assert Variable("dyndep", dyn, 1, width).Success?;
      assert forall i :: 1 <= i < 1 + |a.variables| ==> ([("dyndep", dyn)] + a.variables)[i] == a.variables[i - 1];
      Failure(e)
    case Success(body) => Success(Line(BuildLine(a), 0, width) + body)
  }

  /** Position of the first occurrence of `w` in `words`, or `|words|`. */
  function FirstWord(words: seq<string>, w: string): (i: nat)
    ensures i <= |words|
    ensures i < |words| ==> words[i] == w
    ensures forall j :: 0 <= j < i ==> words[j] != w
  {
    if |words| == 0 then 0 else if words[0] == w then 0 else 1 + FirstWord(words[1..], w)
  }

  /** Splitting a word list at a marker, as a reader of the build line does. */
  function SplitAtMarker(words: seq<string>, marker: string): (seq<string>, seq<string>)
  {
    var i := FirstWord(words, marker);
    if i < |words| then (words[..i], words[i + 1..]) else (words, [])
  }

  /** Reading the input words of a build line back into explicit, implicit
      and order-only inputs. */
  function ReadInputWords(words: seq<string>): (seq<string>, seq<string>, seq<string>)
  {
    var (beforeOrder, orderOnly) := SplitAtMarker(words, "||");
    var (explicit, implicit) := SplitAtMarker(beforeOrder, "|");
    (explicit, implicit, orderOnly)
  }

  lemma {:induction false} MapEscapeNoMarker(paths: seq<string>, marker: string)
    requires marker == "|" || marker == "||"
    requires marker !in paths
    ensures marker !in MapEscape(paths)
  {
    forall i | 0 <= i < |paths| ensures MapEscape(paths)[i] != marker {
      EscapePathMarker(paths[i], marker);
    }
  }

  lemma {:induction false} SplitAtAbsent(a: seq<string>, marker: string)
    requires marker !in a
    ensures SplitAtMarker(a, marker) == (a, [])
  {
  }

  lemma {:induction false} SplitAtPresent(a: seq<string>, marker: string, b: seq<string>)
    requires marker !in a
    ensures SplitAtMarker(a + [marker] + b, marker) == (a, b)
  {
    var i := FirstWord(a + [marker] + b, marker);
    assert (a + [marker] + b)[|a|] == marker;
    assert i == |a|;
    assert (a + [marker] + b)[..|a|] == a;
    assert (a + [marker] + b)[|a| + 1..] == b;
  }

  /** The input section of a build line reads back as the three input lists
      it was made from: `|` appears exactly when there are implicit inputs
      and `||` exactly when there are order-only inputs (for inputs that are
      not themselves `|` or `||`). */
  lemma {:induction false} BuildInputsRoundTrip(a: BuildArgs)
    requires forall p :: p in a.inputs ==> p != "|" && p != "||"
    requires forall p :: p in a.implicit ==> p != "|" && p != "||"
    requires forall p :: p in a.orderOnly ==> p != "|" && p != "||"
    ensures ReadInputWords(InputWords(a)) == (MapEscape(a.inputs), MapEscape(a.implicit), MapEscape(a.orderOnly))
  {
    var ins := MapEscape(a.inputs);
    var imp := MapEscape(a.implicit);
    var oo := MapEscape(a.orderOnly);
    MapEscapeNoMarker(a.inputs, "|");
    MapEscapeNoMarker(a.inputs, "||");
    MapEscapeNoMarker(a.implicit, "|");
    MapEscapeNoMarker(a.implicit, "||");
    var beforeOrder := ins + (if |a.implicit| > 0 then ["|"] + imp else []);
    assert "||" !in beforeOrder;
    if |a.orderOnly| > 0 {
      assert InputWords(a) == beforeOrder + (["||"] + oo);
      assert beforeOrder + (["||"] + oo) == beforeOrder + ["||"] + oo;
      SplitAtPresent(beforeOrder, "||", oo);
    } else {
      assert InputWords(a) == beforeOrder;
      SplitAtAbsent(beforeOrder, "||");
      assert MapEscape(a.orderOnly) == [];
    }
    if |a.implicit| > 0 {
      assert beforeOrder == ins + ["|"] + imp;
      assert "|" !in ins;
      SplitAtPresent(ins, "|", imp);
    } else {
      assert beforeOrder == ins;
      SplitAtAbsent(ins, "|");
      assert imp == [];
    }
  }

  /** The output section reads back as outputs and implicit outputs. */
  lemma {:induction false} BuildOutputsRoundTrip(a: BuildArgs)
    requires forall p :: p in a.outputs ==> p != "|"
    ensures SplitAtMarker(OutputWords(a), "|") == (MapEscape(a.outputs), MapEscape(a.implicitOutputs))
  {
    MapEscapeNoMarker(a.outputs, "|");
    if |a.implicitOutputs| > 0 {
      assert OutputWords(a) == MapEscape(a.outputs) + ["|"] + MapEscape(a.implicitOutputs);
      SplitAtPresent(MapEscape(a.outputs), "|", MapEscape(a.implicitOutputs));
    } else {
      assert OutputWords(a) == MapEscape(a.outputs);
      SplitAtAbsent(MapEscape(a.outputs), "|");
    }
  }
}
