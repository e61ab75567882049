/** The markdown-like rendering of a page: one text block per matched element
    (`convert_tag`), then the post-processing of `extract_clean_text`: join the
    blocks with newlines, collapse every run of three or more newlines to two,
    strip surrounding whitespace, and drop a result of 100 characters or fewer. */
module Render {
  import opened Strings

  /** The tags the document is scanned for (`find_all` with the sixteen names
      below); the parser reports a match by its name. */
  datatype Tag = H1 | H2 | H3 | H4 | H5 | H6 | P | Strong | B | Em | I | Ul | Ol | Blockquote | Code | Pre

  /** The HTML name of a tag. */
  function TagName(t: Tag): string
  {
    match t
    case H1 => "h1" case H2 => "h2" case H3 => "h3" case H4 => "h4" case H5 => "h5" case H6 => "h6"
    case P => "p" case Strong => "strong" case B => "b" case Em => "em" case I => "i"
    case Ul => "ul" case Ol => "ol" case Blockquote => "blockquote" case Code => "code" case Pre => "pre"
  }

  /** One element the HTML parser matched, in document order: its tag, its
      flattened text (`get_text(strip=True)`), and the flattened texts of the
      `li` elements below it (only read for `ul` and `ol`). */
  datatype Element = Element(tag: Tag, text: string, items: seq<string>)

  /** `- item`, one per list item, in order. */
  function BulletLines(items: seq<string>): (r: seq<string>)
    ensures |r| == |items|
    ensures forall i :: 0 <= i < |items| ==> r[i] == "- " + items[i]
  {
    if items == [] then [] else ["- " + items[0]] + BulletLines(items[1..])
  }

  /** `n. item`, numbering consecutively from `first` in item order. */
  function NumberedLines(items: seq<string>, first: nat): (r: seq<string>)
    ensures |r| == |items|
    ensures forall i :: 0 <= i < |items| ==> r[i] == Decimal(first + i) + ". " + items[i]
  {
    if items == [] then [] else [Decimal(first) + ". " + items[0]] + NumberedLines(items[1..], first + 1)
  }

  /** The text block for one element. */
  function ConvertTag(e: Element): string
  {
    var t := e.text;
    match e.tag
    case H1 => "\n# " + t + "\n"
    case H2 => "\n## " + t + "\n"
    case H3 => "\n### " + t + "\n"
    case H4 => "\n#### " + t + "\n"
    case H5 => "\n##### " + t + "\n"
    case H6 => "\n###### " + t + "\n"
    case Strong | B => "**" + t + "**"
    case Em | I => "*" + t + "*"
    case Ul => "\n" + Join("\n", BulletLines(e.items)) + "\n"
    case Ol => "\n" + Join("\n", NumberedLines(e.items, 1)) + "\n"
    case Blockquote => "\n> " + t + "\n"
    case Code => "`" + t + "`"
    case Pre => "\n```\n" + t + "\n```\n"
    case P => "\n" + t + "\n"
  }

  function Hashes(k: nat): (r: string)
    ensures |r| == k && forall i :: 0 <= i < k ==> r[i] == '#'
  {
    seq(k, _ => '#')
  }

  /** The tag of the heading of level `k`. */
  function Heading(k: nat): Tag
    requires 1 <= k <= 6
  {
    [H1, H2, H3, H4, H5, H6][k - 1]
  }

  /** A heading of level k, named `h` followed by the digit k, is rendered as a
      line of k hash marks, a space and its text, between newlines. */
  lemma HeadingRule(k: nat, text: string, items: seq<string>)
    requires 1 <= k <= 6
    ensures TagName(Heading(k)) == "h" + Decimal(k)
    ensures ConvertTag(Element(Heading(k), text, items)) == "\n" + Hashes(k) + " " + text + "\n"
  {
    assert Decimal(k) == [DigitChar(k)];
  }

  /** `b` and `strong` are synonyms, and so are `i` and `em`. */
  lemma EmphasisSynonyms(text: string, items: seq<string>)
    ensures ConvertTag(Element(B, text, items)) == ConvertTag(Element(Strong, text, items))
                                               == "**" + text + "**"
    ensures ConvertTag(Element(I, text, items)) == ConvertTag(Element(Em, text, items))
                                               == "*" + text + "*"
  {
  }

  /** Tags rendered as blocks of their own; the others (`strong`, `b`, `em`,
      `i`, `code`) are inline. */
  predicate IsBlockTag(t: Tag) {
    !(t.Strong? || t.B? || t.Em? || t.I? || t.Code?)
  }

  /** `a + x + b` determines `x` once `a` and `b` are known. */
  lemma UnwrapMiddle(a: string, x: string, y: string, b: string)
    requires a + x + b == a + y + b
    ensures x == y
  {
    var r := a + x + b;
    assert r[|a|..|a| + |x|] == x;
    assert r[|a|..|a| + |y|] == y;
  }

  /** A block starts and ends with a newline, so it stands on lines of its
      own once the blocks are joined; an inline element adds no newline to
      those of its text. */
  lemma BlockAndInlineTags(e: Element)
    ensures IsBlockTag(e.tag) ==>
              |ConvertTag(e)| >= 2 && ConvertTag(e)[0] == '\n' && ConvertTag(e)[|ConvertTag(e)| - 1] == '\n'
    ensures !IsBlockTag(e.tag) ==>
              |ConvertTag(e)| - |WithoutNewlines(ConvertTag(e))| == |e.text| - |WithoutNewlines(e.text)|
  {
    if !IsBlockTag(e.tag) {
      var m := if e.tag.Strong? || e.tag.B? then "**" else if e.tag.Code? then "`" else "*";
      assert ConvertTag(e) == m + e.text + m;
      WithoutNewlinesConcat(m, e.text);
      WithoutNewlinesConcat(m + e.text, m);
      assert WithoutNewlines(m) == m;
    }
  }

  /** For every tag but the two list tags, the element's text can be read
      back from its block: two elements of the same tag with the same block
      have the same text. */
  lemma ConvertTagKeepsText(e1: Element, e2: Element)
    requires e1.tag == e2.tag && !e1.tag.Ul? && !e1.tag.Ol?
    requires ConvertTag(e1) == ConvertTag(e2)
    ensures e1.text == e2.text
  {
    var x, y := e1.text, e2.text;
    match e1.tag
    case H1 => UnwrapMiddle("\n# ", x, y, "\n");
    case H2 => UnwrapMiddle("\n## ", x, y, "\n");
    case H3 => UnwrapMiddle("\n### ", x, y, "\n");
    case H4 => UnwrapMiddle("\n#### ", x, y, "\n");
    case H5 => UnwrapMiddle("\n##### ", x, y, "\n");
    case H6 => UnwrapMiddle("\n###### ", x, y, "\n");
    case Strong => UnwrapMiddle("**", x, y, "**");
    case B => UnwrapMiddle("**", x, y, "**");
    case Em => UnwrapMiddle("*", x, y, "*");
    case I => UnwrapMiddle("*", x, y, "*");
    case Blockquote => UnwrapMiddle("\n> ", x, y, "\n");
    case Code => UnwrapMiddle("`", x, y, "`");
    case Pre => UnwrapMiddle("\n```\n", x, y, "\n```\n");
    case P => UnwrapMiddle("\n", x, y, "\n");
  }

  /** The blocks of a document, one per element, in document order. */
  function Blocks(doc: seq<Element>): seq<string>
  {
    seq(|doc|, i requires 0 <= i < |doc| => ConvertTag(doc[i]))
  }

  /** The joined text of a document before compaction. */
  function Joined(doc: seq<Element>): string
  {
    Join("\n", Blocks(doc))
  }

  /** The rendering keeps document order: the text of one part of a document
      comes before the text of the part after it, separated by one newline. */
  lemma DocumentOrder(a: seq<Element>, b: seq<Element>)
    requires |a| > 0 && |b| > 0
    ensures Joined(a + b) == Joined(a) + "\n" + Joined(b)
  {
    var ba, bb := Blocks(a), Blocks(b);
    forall i | 0 <= i < |a| + |b|
      ensures Blocks(a + b)[i] == (ba + bb)[i]
    {
      if i < |a| {
        assert (a + b)[i] == a[i];
      } else {
        assert (a + b)[i] == b[i - |a|];
      }
    }
    assert Blocks(a + b) == ba + bb;
    JoinConcat("\n", Blocks(a), Blocks(b));
  }

  /** Three newlines in a row start at position `i`. */
  predicate TripleNewlineAt(s: string, i: nat)
    requires i + 2 < |s|
  {
    s[i] == '\n' && s[i + 1] == '\n' && s[i + 2] == '\n'
  }

  predicate NoTripleNewline(s: string) {
    forall i: nat :: i + 2 < |s| ==> !TripleNewlineAt(s, i)
  }

  /** The length of the run of newlines `s` starts with. */
  function NewlineRun(s: string): (k: nat)
    ensures k <= |s|
    ensures forall i :: 0 <= i < k ==> s[i] == '\n'
    ensures k < |s| ==> s[k] != '\n'
  {
    if s != [] && s[0] == '\n' then 1 + NewlineRun(s[1..]) else 0
  }

  /** `re.sub(r'\n{3,}', '\n\n', s)`: each maximal run of three or more
      newlines becomes exactly two; everything else is copied. */
  function CollapseNewlines(s: string): string
    decreases |s|
  {
    if s == [] then []
    else if s[0] == '\n' then
      var k := NewlineRun(s);
      (if k >= 3 then "\n\n" else s[..k]) + CollapseNewlines(s[k..])
    else [s[0]] + CollapseNewlines(s[1..])
  }

  /** Collapsing starts with a newline exactly when its input does. */
  lemma CollapseHead(s: string)
    ensures (CollapseNewlines(s) == []) == (s == [])
    ensures s != [] ==> (CollapseNewlines(s)[0] == '\n') == (s[0] == '\n')
  {
  }

  /** After collapsing, no three newlines are adjacent. */
  lemma {:induction false} CollapseNoTriple(s: string)
    ensures NoTripleNewline(CollapseNewlines(s))
    decreases |s|
  {
    if s == [] {
    } else if s[0] == '\n' {
      var k := NewlineRun(s);
      var c: string := if k >= 3 then "\n\n" else s[..k];
      var rest := CollapseNewlines(s[k..]);
      CollapseNoTriple(s[k..]);
      CollapseHead(s[k..]);
      assert CollapseNewlines(s) == c + rest;
      forall i: nat | i + 2 < |c + rest|
        ensures !TripleNewlineAt(c + rest, i)
      {
        if i >= |c| {
          assert !TripleNewlineAt(rest, i - |c|);
        } else {
          // The triple would reach rest[0], which is not a newline.
          assert (c + rest)[|c|] == rest[0];
        }
      }
    } else {
      var rest := CollapseNewlines(s[1..]);
      CollapseNoTriple(s[1..]);
      assert CollapseNewlines(s) == [s[0]] + rest;
      forall i: nat | i + 2 < |[s[0]] + rest|
        ensures !TripleNewlineAt([s[0]] + rest, i)
      {
        if i >= 1 {
          assert !TripleNewlineAt(rest, i - 1);
        }
      }
    }
  }

  /** Text that has no three adjacent newlines is left as it is, so collapsing
      twice is the same as collapsing once. */
  lemma {:induction false} CollapseKeepsCompactText(s: string)
    requires NoTripleNewline(s)
    ensures CollapseNewlines(s) == s
    decreases |s|
  {
    if s == [] {
    } else if s[0] == '\n' {
      var k := NewlineRun(s);
      if k >= 3 {
        assert TripleNewlineAt(s, 0);
      }
      assert s[..k] + s[k..] == s;
      forall i: nat | i + 2 < |s[k..]|
        ensures !TripleNewlineAt(s[k..], i)
      {
        assert !TripleNewlineAt(s, i + k);
      }
      CollapseKeepsCompactText(s[k..]);
    } else {
      forall i: nat | i + 2 < |s[1..]|
        ensures !TripleNewlineAt(s[1..], i)
      {
        assert !TripleNewlineAt(s, i + 1);
      }
      CollapseKeepsCompactText(s[1..]);
      assert [s[0]] + s[1..] == s;
    }
  }

  lemma CollapseIdempotent(s: string)
    ensures CollapseNewlines(CollapseNewlines(s)) == CollapseNewlines(s)
  {
    CollapseNoTriple(s);
    CollapseKeepsCompactText(CollapseNewlines(s));
  }

  /** The characters other than newline, in order. */
  function WithoutNewlines(s: string): string
  {
    if s == [] then [] else (if s[0] == '\n' then [] else [s[0]]) + WithoutNewlines(s[1..])
  }

  lemma {:induction false} WithoutNewlinesConcat(a: string, b: string)
    ensures WithoutNewlines(a + b) == WithoutNewlines(a) + WithoutNewlines(b)
  {
    if a != [] {
      var head: string := if a[0] == '\n' then [] else [a[0]];
      assert (a + b)[0] == a[0];
      assert (a + b)[1..] == a[1..] + b;
      assert WithoutNewlines(a + b) == head + WithoutNewlines(a[1..] + b);
      WithoutNewlinesConcat(a[1..], b);
      assert WithoutNewlines(a) == head + WithoutNewlines(a[1..]);
    } else {
      assert a + b == b;
    }
  }

  lemma {:induction false} WithoutNewlinesOfRun(s: string)
    requires forall i :: 0 <= i < |s| ==> s[i] == '\n'
    ensures WithoutNewlines(s) == []
  {
    if s != [] {
      WithoutNewlinesOfRun(s[1..]);
    }
  }

  /** Collapsing only ever removes newlines: every other character survives, in order. */
  lemma {:induction false} CollapseKeepsOtherChars(s: string)
    ensures WithoutNewlines(CollapseNewlines(s)) == WithoutNewlines(s)
    decreases |s|
  {
    if s == [] {
    } else if s[0] == '\n' {
      var k := NewlineRun(s);
      var c: string := if k >= 3 then "\n\n" else s[..k];
      CollapseKeepsOtherChars(s[k..]);
      WithoutNewlinesConcat(c, CollapseNewlines(s[k..]));
      WithoutNewlinesConcat(s[..k], s[k..]);
      assert s[..k] + s[k..] == s;
      WithoutNewlinesOfRun(c);
      WithoutNewlinesOfRun(s[..k]);
    } else {
      CollapseKeepsOtherChars(s[1..]);
      WithoutNewlinesConcat([s[0]], CollapseNewlines(s[1..]));
    }
  }

  /** `extract_clean_text` on an already-matched document, as one expression. */
  function CleanText(doc: seq<Element>): string
  {
    var t := Trim(CollapseNewlines(Joined(doc)), IsSpace);
    if |t| > 100 then t else ""
  }

  /** The result is empty or longer than 100 characters, has no surrounding
      whitespace and no three adjacent newlines. */
  lemma CleanTextShape(doc: seq<Element>)
    ensures var r := CleanText(doc);
            && (r == "" || |r| > 100)
            && (r == "" || (!IsSpace(r[0]) && !IsSpace(r[|r| - 1])))
            && NoTripleNewline(r)
  {
    var c := CollapseNewlines(Joined(doc));
    CollapseNoTriple(Joined(doc));
    var k := TrimIsMaximalSlice(c, IsSpace);
    var t := Trim(c, IsSpace);
    forall i: nat | i + 2 < |t|
      ensures !TripleNewlineAt(t, i)
    {
      assert !TripleNewlineAt(c, k + i);
    }
  }

  /** The loop of `extract_clean_text` that collects one block per element,
      then the join, collapse, strip and length threshold. */
  method ExtractCleanText(doc: seq<Element>) returns (text: string)
    ensures text == CleanText(doc)
    ensures text == "" || |text| > 100
    ensures text == "" || (!IsSpace(text[0]) && !IsSpace(text[|text| - 1]))
    ensures NoTripleNewline(text)
  {
    var formatted: seq<string> := [];
    for n := 0 to |doc|
      invariant |formatted| == n
      invariant forall i :: 0 <= i < n ==> formatted[i] == ConvertTag(doc[i])
    {
      formatted := formatted + [ConvertTag(doc[n])];
    }
    assert formatted == Blocks(doc);
    var joined := Join("\n", formatted);
    var t := Trim(CollapseNewlines(joined), IsSpace);
    text := if |t| > 100 then t else "";
    CleanTextShape(doc);
  }
}
