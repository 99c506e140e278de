/**
 * The assistant-text formatter of the chat page (static/script.js): `escapeHtml` and the
 * three ordered passes of `formatMessage`. Each regular expression of the source is a
 * hand-written scanner over `string`; a global `replace` tries a match at each position
 * from left to right, emits one character and moves on when there is none, and resumes
 * after the match when there is one.
 */
module Format {
  import opened Wrappers
  import opened Text
  import opened Seqs

  // ---------------------------------------------------------------------------
  // escapeHtml: the text-node "escaping a string" step of HTML fragment serialisation
  // ---------------------------------------------------------------------------

  /** The characters that serialising a text node replaces by an entity. */
  predicate NeedsEscape(c: char) {
    c == '&' || c == '\U{A0}' || c == '<' || c == '>'
  }

  /** No character of `s` needs escaping. */
  predicate Plain(s: string) {
    forall i :: 0 <= i < |s| ==> !NeedsEscape(s[i])
  }

  function EscapeChar(c: char): (r: string)
    ensures |r| >= 1
    ensures |r| == 1 <==> !NeedsEscape(c)
  {
    if c == '&' then "&amp;"
    else if c == '\U{A0}' then "&nbsp;"
    else if c == '<' then "&lt;"
    else if c == '>' then "&gt;"
    else [c]
  }

  /** `w` occurs in `s` at index `i`. */
  predicate StartsAt(s: string, i: int, w: string) {
    0 <= i && i + |w| <= |s| && s[i..i + |w|] == w
  }

  /** One of the four entities `escapeHtml` writes starts at index `i` of `s`. */
  predicate EntityAt(s: string, i: int) {
    StartsAt(s, i, "&amp;") || StartsAt(s, i, "&nbsp;") || StartsAt(s, i, "&lt;") || StartsAt(s, i, "&gt;")
  }

  /**
   * escapeHtml (static/script.js:146-150): assigning `textContent` and reading back
   * `innerHTML` replaces `&`, no-break space, `<` and `>` by entities and keeps every
   * other character.
   */
  function EscapeHtml(s: string): (r: string)
    ensures |r| >= |s|
    ensures |r| == |s| <==> Plain(s)
    ensures Plain(s) ==> r == s
    ensures forall i :: 0 <= i < |r| ==> r[i] != '<' && r[i] != '>' && r[i] != '\U{A0}'
    decreases |s|
  {
    if s == [] then [] else EscapeChar(s[0]) + EscapeHtml(s[1..])
  }

  lemma EntityAtAppend(a: string, b: string, i: int)
    requires EntityAt(b, i)
    ensures EntityAt(a + b, |a| + i)
  {
    var ab := a + b;
    forall w: string | StartsAt(b, i, w) ensures StartsAt(ab, |a| + i, w) {
      assert ab[|a| + i..|a| + i + |w|] == b[i..i + |w|];
    }
  }

  lemma EntityAtPrefix(a: string, b: string, i: int)
    requires EntityAt(a, i)
    ensures EntityAt(a + b, i)
  {
    var ab := a + b;
    forall w: string | StartsAt(a, i, w) ensures StartsAt(ab, i, w) {
      assert ab[i..i + |w|] == a[i..i + |w|];
    }
  }

  /** Every `&` in the output of escapeHtml begins one of the four entities it writes. */
  lemma {:induction false} EscapedAmpersandsStartEntities(s: string)
    ensures forall i :: 0 <= i < |EscapeHtml(s)| && EscapeHtml(s)[i] == '&' ==> EntityAt(EscapeHtml(s), i)
    decreases |s|
  {
    if s != [] {
      EscapedAmpersandsStartEntities(s[1..]);
      AmpersandsAfterEscapeChar(s[0], EscapeHtml(s[1..]));
    }
  }

  /** Escaping one more character in front keeps every `&` at the start of an entity. */
  lemma AmpersandsAfterEscapeChar(c: char, e: string)
    requires forall i :: 0 <= i < |e| && e[i] == '&' ==> EntityAt(e, i)
    ensures var r := EscapeChar(c) + e;
            forall i :: 0 <= i < |r| && r[i] == '&' ==> EntityAt(r, i)
  {
    var p := EscapeChar(c);
    forall i | 0 <= i < |p + e| && (p + e)[i] == '&' ensures EntityAt(p + e, i) {
      if i < |p| {
        EscapeCharAmpersand(c, e, i);
      } else {
        assert e[i - |p|] == '&';
        EntityAtAppend(p, e, i - |p|);
      }
    }
  }

  /** An `&` inside the escaped form of one character starts that entity. */
  lemma EscapeCharAmpersand(c: char, e: string, i: int)
    requires 0 <= i < |EscapeChar(c)| && EscapeChar(c)[i] == '&'
    ensures EntityAt(EscapeChar(c) + e, i)
  {
    var p := EscapeChar(c);
    assert i == 0 && NeedsEscape(c);
    assert EntityAt(p, 0);
    EntityAtPrefix(p, e, 0);
  }

  /** Reads the four entities back as the characters they stand for; any other text is kept. */
  function Unescape(s: string): (r: string)
    decreases |s|
  {
    if s == [] then []
    else if StartsAt(s, 0, "&amp;") then "&" + Unescape(s[5..])
    else if StartsAt(s, 0, "&nbsp;") then "\U{A0}" + Unescape(s[6..])
    else if StartsAt(s, 0, "&lt;") then "<" + Unescape(s[4..])
    else if StartsAt(s, 0, "&gt;") then ">" + Unescape(s[4..])
    else [s[0]] + Unescape(s[1..])
  }

  /** Unescaping reads the escaped form of one character back as that character. */
  lemma UnescapeEscapeChar(c: char, e: string)
    ensures Unescape(EscapeChar(c) + e) == [c] + Unescape(e)
  {
    var p := EscapeChar(c);
    var s := p + e;
    assert s[..|p|] == p && s[|p|..] == e;
    if !NeedsEscape(c) {
      assert s[0] == c;
      assert !StartsAt(s, 0, "&amp;") && !StartsAt(s, 0, "&nbsp;");
      assert !StartsAt(s, 0, "&lt;") && !StartsAt(s, 0, "&gt;");
    } else if c == '&' {
      assert StartsAt(s, 0, "&amp;");
    } else if c == '\U{A0}' {
      assert !StartsAt(s, 0, "&amp;") by { assert s[1] == 'n'; }
      assert StartsAt(s, 0, "&nbsp;");
    } else if c == '<' {
      assert !StartsAt(s, 0, "&amp;") && !StartsAt(s, 0, "&nbsp;") by { assert s[1] == 'l'; }
      assert StartsAt(s, 0, "&lt;");
    } else {
      assert !StartsAt(s, 0, "&amp;") && !StartsAt(s, 0, "&nbsp;") && !StartsAt(s, 0, "&lt;") by { assert s[1] == 'g'; }
      assert StartsAt(s, 0, "&gt;");
    }
  }

  /** Unescaping the output of escapeHtml gives back its input. */
  lemma {:induction false} UnescapeEscapeHtml(s: string)
    ensures Unescape(EscapeHtml(s)) == s
    decreases |s|
  {
    if s != [] {
      UnescapeEscapeHtml(s[1..]);
      UnescapeEscapeChar(s[0], EscapeHtml(s[1..]));
      assert s == [s[0]] + s[1..];
    }
  }

  /** How often `c` occurs in `s`. */
  function Count(s: string, c: char): (n: nat)
    ensures n <= |s|
    ensures n == 0 <==> c !in s
    decreases |s|
  {
    if s == [] then 0 else (if s[0] == c then 1 else 0) + Count(s[1..], c)
  }

  lemma {:induction false} CountAppend(a: string, b: string, c: char)
    ensures Count(a + b, c) == Count(a, c) + Count(b, c)
    decreases |a|
  {
    if a == [] {
      assert a + b == b;
    } else {
      AppendHead(a, b);
      CountAppend(a[1..], b, c);
    }
  }

  lemma CountEscapeChar(x: char, c: char)
    requires c == '\n' || c == '`'
    ensures Count(EscapeChar(x), c) == Count([x], c)
  {
    var p := EscapeChar(x);
    if NeedsEscape(x) {
      assert c !in p by {
        forall i | 0 <= i < |p| ensures p[i] != c { }
      }
    }
  }

  /**
   * escapeHtml keeps newlines and backticks: each occurs in the output exactly as often
   * as in the input.
   */
  lemma {:induction false} EscapeHtmlKeepsNewlinesAndBackticks(s: string, c: char)
    requires c == '\n' || c == '`'
    ensures Count(EscapeHtml(s), c) == Count(s, c)
    decreases |s|
  {
    if s != [] {
      EscapeHtmlKeepsNewlinesAndBackticks(s[1..], c);
      CountAppend(EscapeChar(s[0]), EscapeHtml(s[1..]), c);
      CountEscapeChar(s[0], c);
      assert s == [s[0]] + s[1..];
      CountAppend([s[0]], s[1..], c);
    }
  }

  // ---------------------------------------------------------------------------
  // Pass 1: fenced code blocks, /```(\w+)?\n([\s\S]*?)```/g
  // ---------------------------------------------------------------------------

  /** A character of the regular-expression class `\w`. */
  predicate IsWordChar(c: char) {
    ('a' <= c <= 'z') || ('A' <= c <= 'Z') || ('0' <= c <= '9') || c == '_'
  }

  predicate AllWord(w: string) {
    forall i :: 0 <= i < |w| ==> IsWordChar(w[i])
  }

  /** The length of the maximal run of word characters at the start of `s`. */
  function WordRun(s: string): (n: nat)
    ensures n <= |s| && forall i :: 0 <= i < n ==> IsWordChar(s[i])
    ensures n == |s| || !IsWordChar(s[n])
    decreases |s|
  {
    if s != [] && IsWordChar(s[0]) then 1 + WordRun(s[1..]) else 0
  }

  lemma WordRunOf(w: string, t: string)
    requires AllWord(w)
    requires t == [] || !IsWordChar(t[0])
    ensures WordRun(w + t) == |w|
  {
    var s := w + t;
    assert forall k :: 0 <= k < |w| ==> s[k] == w[k];
    if t != [] {
      assert s[|w|] == t[0];
    }
  }

  /** Three backticks start at index `i` of `s`. */
  predicate TripleAt(s: string, i: int) {
    0 <= i && i + 3 <= |s| && s[i] == '`' && s[i + 1] == '`' && s[i + 2] == '`'
  }

  predicate NoTriple(s: string) {
    forall j :: 0 <= j < |s| ==> !TripleAt(s, j)
  }

  /** The first index at or after `from` where three backticks start. */
  function FindTriple(s: string, from: nat): (r: Option<nat>)
    requires from <= |s|
    ensures r.Some? ==> from <= r.value && TripleAt(s, r.value)
    ensures r.Some? ==> forall j :: from <= j < r.value ==> !TripleAt(s, j)
    ensures r.None? ==> forall j :: from <= j ==> !TripleAt(s, j)
    decreases |s| - from
  {
    if from + 3 > |s| then None
    else if TripleAt(s, from) then Some(from)
    else FindTriple(s, from + 1)
  }

  /**
   * The lazy body `[\s\S]*?` followed by three backticks stops at the first triple:
   * none of them starts inside `body` once the closing fence is appended.
   */
  predicate ClosesFirst(body: string) {
    forall j :: 0 <= j < |body| ==> !TripleAt(body + "```", j)
  }

  /** What the fence expression captures: the optional language tag and the body. */
  datatype Fence = Fence(lang: string, body: string, rest: string)

  /** The pieces a fence match cuts `s` into. */
  lemma FenceSplit(s: string, n: nat, k: nat)
    requires 3 <= n < k && k + 3 <= |s| && TripleAt(s, 0) && s[n] == '\n' && TripleAt(s, k)
    ensures s == "```" + s[3..n] + "\n" + s[n + 1..k] + "```" + s[k + 3..]
  {
    assert s[..3] == "```" && s[k..k + 3] == "```";
    assert s == s[..3] + s[3..n] + [s[n]] + s[n + 1..k] + s[k..k + 3] + s[k + 3..];
  }

  /** A body that the first triple after it closes contains no triple of its own. */
  lemma FenceBodyCloses(s: string, from: nat, k: nat)
    requires from <= k && k + 3 <= |s| && TripleAt(s, k)
    requires forall j :: from <= j < k ==> !TripleAt(s, j)
    ensures ClosesFirst(s[from..k]) && NoTriple(s[from..k])
  {
    var body := s[from..k];
    assert body + "```" == s[from..k + 3];
    forall j | 0 <= j < |body| ensures !TripleAt(body + "```", j) {
      assert !TripleAt(s, from + j);
    }
    forall j | 0 <= j < |body| ensures !TripleAt(body, j) {
      assert !TripleAt(s, from + j);
    }
  }

  /** The fence expression tried at the start of `s`. */
  function FenceAt(s: string): (m: Option<Fence>)
    ensures m.Some? ==> s == "```" + m.value.lang + "\n" + m.value.body + "```" + m.value.rest
    ensures m.Some? ==> AllWord(m.value.lang) && ClosesFirst(m.value.body) && NoTriple(m.value.body)
  {
    if !TripleAt(s, 0) then None
    else
      var n := 3 + WordRun(s[3..]);
      if n < |s| && s[n] == '\n' then
        match FindTriple(s, n + 1)
        case None => None
        case Some(k) =>
          FenceSplit(s, n, k);
          FenceBodyCloses(s, n + 1, k);
          assert AllWord(s[3..n]) by {
            forall j | 0 <= j < n - 3 ensures IsWordChar(s[3..n][j]) {
              assert s[3..n][j] == s[3..][j];
            }
          }
          Some(Fence(s[3..n], s[n + 1..k], s[k + 3..]))
      else None
  }

  const PreOpen := "<pre><code>"
  const PreClose := "</code></pre>"

  /**
   * The block that replaces a fence (static/script.js:133): the language tag is dropped and
   * the trimmed body is escaped inside `<pre><code>`, so the body cannot open an element of
   * its own, and reading the entities back gives the trimmed body.
   */
  function CodeBlock(body: string): (r: string)
    ensures |PreOpen| + |PreClose| <= |r|
    ensures r[..|PreOpen|] == PreOpen && r[|r| - |PreClose|..] == PreClose
    ensures Unescape(r[|PreOpen|..|r| - |PreClose|]) == Trim(body, IsJsSpace)
    ensures forall i :: |PreOpen| <= i < |r| - |PreClose| ==> r[i] != '<'
  {
    var t := Trim(body, IsJsSpace);
    UnescapeEscapeHtml(t);
    var r := PreOpen + EscapeHtml(t) + PreClose;
    assert r[|PreOpen|..|r| - |PreClose|] == EscapeHtml(t);
    r
  }

  /** Pass 1 of formatMessage (static/script.js:132-134). */
  function Fences(s: string): (r: string)
    ensures NoTriple(s) ==> r == s
    decreases |s|
  {
    if s == [] then []
    else
      match FenceAt(s)
      case Some(f) => CodeBlock(f.body) + Fences(f.rest)
      case None =>
        assert NoTriple(s) ==> NoTriple(s[1..]) by {
          if NoTriple(s) {
            forall j | TripleAt(s[1..], j) ensures false { assert TripleAt(s, j + 1); }
          }
        }
        [s[0]] + Fences(s[1..])
  }

  /**
   * A fence whose tag is word characters, followed by a newline and a body that the
   * first following triple closes, is matched with exactly that tag and body.
   */
  lemma FenceAtComplete(lang: string, body: string, rest: string)
    requires AllWord(lang) && ClosesFirst(body)
    ensures FenceAt("```" + lang + "\n" + body + "```" + rest) == Some(Fence(lang, body, rest))
  {
    var s := "```" + lang + "\n" + body + "```" + rest;
    FenceOpens(s, lang, body, rest);
    FenceCloses(s, "```" + lang + "\n", body, rest);
    FenceAtOf(s, 3 + |lang|, 4 + |lang| + |body|);
  }

  /** FenceAt once the end of the tag and the closing triple are known. */
  lemma FenceAtOf(s: string, n: nat, k: nat)
    requires TripleAt(s, 0) && 3 + WordRun(s[3..]) == n < |s| && s[n] == '\n'
    requires FindTriple(s, n + 1) == Some(k)
    ensures FenceAt(s) == Some(Fence(s[3..n], s[n + 1..k], s[k + 3..]))
  {
  }

  /** The opening of a well-formed fence: three backticks, the whole tag, then the newline. */
  lemma FenceOpens(s: string, lang: string, body: string, rest: string)
    requires s == "```" + lang + "\n" + body + "```" + rest && AllWord(lang)
    ensures TripleAt(s, 0) && 3 + WordRun(s[3..]) == 3 + |lang| < |s| && s[3 + |lang|] == '\n'
    ensures s[3..3 + |lang|] == lang
  {
    var t := "\n" + body + "```" + rest;
    assert s[3..] == lang + t;
    WordRunOf(lang, t);
  }

  /** The lazy body ends at the first triple after the newline, which closes `body`. */
  lemma FenceCloses(s: string, p: string, body: string, rest: string)
    requires s == p + body + "```" + rest && ClosesFirst(body)
    ensures FindTriple(s, |p|) == Some(|p| + |body|)
    ensures s[|p|..|p| + |body|] == body && s[|p| + |body| + 3..] == rest
  {
    NoTripleBeforeClose(s, p, body, rest);
    FindTripleFirst(s, |p|, |p| + |body|);
  }

  lemma NoTripleBeforeClose(s: string, p: string, body: string, rest: string)
    requires s == p + body + "```" + rest && ClosesFirst(body)
    ensures TripleAt(s, |p| + |body|)
    ensures forall j :: |p| <= j < |p| + |body| ==> !TripleAt(s, j)
  {
    var u := body + "```";
    assert s == p + u + rest;
    forall j | |p| <= j < |p| + |body| ensures !TripleAt(s, j) {
      TripleAtShift(p, u, rest, j - |p|);
    }
    TripleAtShift(p, u, rest, |body|);
  }

  /** A triple inside the middle part of a concatenation is a triple of that part. */
  lemma TripleAtShift(p: string, u: string, v: string, j: int)
    requires 0 <= j && j + 3 <= |u|
    ensures TripleAt(p + u + v, |p| + j) == TripleAt(u, j)
  {
    var s := p + u + v;
    assert s[|p| + j] == u[j] && s[|p| + j + 1] == u[j + 1] && s[|p| + j + 2] == u[j + 2];
  }

  /** FindTriple returns the first triple at or after `from`. */
  lemma FindTripleFirst(s: string, from: nat, k: nat)
    requires from <= k && TripleAt(s, k)
    requires forall j :: from <= j < k ==> !TripleAt(s, j)
    ensures FindTriple(s, from) == Some(k)
  {
    match FindTriple(s, from)
    case None =>
      assert false;
    case Some(k') =>
      assert !(k' < k) && !(k < k');
  }

  /**
   * Pass 1 on a well-formed fence: the block `<pre><code>` + escapeHtml(trim(body)) +
   * `</code></pre>`, whatever the tag, followed by pass 1 of the remaining text.
   */
  lemma FencesBlock(lang: string, body: string, rest: string)
    requires AllWord(lang) && ClosesFirst(body)
    ensures Fences("```" + lang + "\n" + body + "```" + rest)
         == "<pre><code>" + EscapeHtml(Trim(body, IsJsSpace)) + "</code></pre>" + Fences(rest)
  {
    FenceAtComplete(lang, body, rest);
  }

  /** A first character that is not a backtick is copied by pass 1. */
  lemma FencesCopiesHead(s: string)
    requires s != [] && s[0] != '`'
    ensures Fences(s) == [s[0]] + Fences(s[1..])
  {
    assert FenceAt(s) == None;
  }

  /** Text without backticks in front of the rest is copied unchanged by pass 1. */
  lemma {:induction false} FencesSkipsPlain(a: string, b: string)
    requires '`' !in a
    ensures Fences(a + b) == a + Fences(b)
    decreases |a|
  {
    if a == [] {
      assert a + b == b;
    } else {
      assert a[0] in a;
      AppendHead(a, b);
      FencesCopiesHead(a + b);
      FencesSkipsPlain(a[1..], b);
      HeadTail(a, Fences(b));
    }
  }

  /** Without a newline right after the word-character tag, three backticks open no block. */
  lemma FenceNeedsNewline(w: string, c: char, t: string)
    requires AllWord(w) && !IsWordChar(c) && c != '\n'
    ensures FenceAt("```" + w + [c] + t) == None
  {
    var s := "```" + w + [c] + t;
    assert s[3..] == w + ([c] + t);
    WordRunOf(w, [c] + t);
    assert s[3 + |w|] == c;
  }

  /** A body with no backtick at all is closed by the first fence after it. */
  lemma NoBacktickClosesFirst(body: string)
    requires '`' !in body
    ensures ClosesFirst(body)
  {
    forall j | 0 <= j < |body| ensures !TripleAt(body + "```", j) {
      assert (body + "```")[j] == body[j];
    }
  }

  // ---------------------------------------------------------------------------
  // Pass 2: inline code spans, /`([^`]+)`/g, copied without escaping
  // ---------------------------------------------------------------------------

  /** The first index at or after `from` holding a backtick. */
  function FindBacktick(s: string, from: nat): (r: Option<nat>)
    requires from <= |s|
    ensures r.Some? ==> from <= r.value < |s| && s[r.value] == '`'
    ensures r.Some? ==> forall j :: from <= j < r.value ==> s[j] != '`'
    ensures r.None? ==> forall j :: from <= j < |s| ==> s[j] != '`'
    decreases |s| - from
  {
    if from == |s| then None
    else if s[from] == '`' then Some(from)
    else FindBacktick(s, from + 1)
  }

  /** What the inline expression captures: the span content, and the text after it. */
  datatype Span = Span(content: string, rest: string)

  /** The inline expression tried at the start of `s`. */
  function SpanAt(s: string): (m: Option<Span>)
    ensures m.Some? ==> s == "`" + m.value.content + "`" + m.value.rest
    ensures m.Some? ==> m.value.content != [] && '`' !in m.value.content
  {
    if s == [] || s[0] != '`' then None
    else
      match FindBacktick(s, 1)
      case None => None
      case Some(j) =>
        if j == 1 then None
        else
          var m := Span(s[1..j], s[j + 1..]);
          assert s == [s[0]] + s[1..j] + [s[j]] + s[j + 1..];
          Some(m)
  }

  /** Pass 2 of formatMessage (static/script.js:137). */
  function Inline(s: string): (r: string)
    ensures '`' !in s ==> r == s
    decreases |s|
  {
    if s == [] then []
    else
      match SpanAt(s)
      case Some(m) => "<code>" + m.content + "</code>" + Inline(m.rest)
      case None => [s[0]] + Inline(s[1..])
  }

  /** A span with non-empty, backtick-free content becomes `<code>` + content + `</code>`, unescaped. */
  lemma InlineSpan(x: string, rest: string)
    requires x != [] && '`' !in x
    ensures Inline("`" + x + "`" + rest) == "<code>" + x + "</code>" + Inline(rest)
  {
    var s := "`" + x + "`" + rest;
    forall j | 1 <= j < 1 + |x| ensures s[j] != '`' { assert s[j] == x[j - 1]; }
    assert s[1 + |x|] == '`';
    match FindBacktick(s, 1)
    case None =>
    case Some(j) =>
      assert j == 1 + |x|;
      assert s[1..j] == x && s[j + 1..] == rest;
  }

  /** A first character that is not a backtick is copied by pass 2. */
  lemma InlineCopiesHead(s: string)
    requires s != [] && s[0] != '`'
    ensures Inline(s) == [s[0]] + Inline(s[1..])
  {
    assert SpanAt(s) == None;
  }

  /** Text without backticks passes through pass 2 unchanged, whatever follows it. */
  lemma {:induction false} InlineSkipsPlain(a: string, b: string)
    requires '`' !in a
    ensures Inline(a + b) == a + Inline(b)
    decreases |a|
  {
    if a == [] {
      assert a + b == b;
    } else {
      assert a[0] in a;
      AppendHead(a, b);
      InlineCopiesHead(a + b);
      InlineSkipsPlain(a[1..], b);
      HeadTail(a, Inline(b));
    }
  }

  /**
   * A backtick directly followed by another opens no span: it is copied, and the scan
   * goes on at the second backtick, which may open a span of its own.
   */
  lemma EmptySpanNotMatched(t: string)
    ensures SpanAt("``" + t) == None
    ensures Inline("``" + t) == "`" + Inline("`" + t)
  {
    var s := "``" + t;
    assert s[1] == '`';
    assert s[1..] == "`" + t;
  }

  /** The text made of two backticks alone is returned unchanged. */
  lemma EmptySpanLeftAlone()
    ensures Inline("``") == "``"
  {
    EmptySpanNotMatched("");
    assert "``" + "" == "``" && "`" + "" == "`";
    assert SpanAt("`") == None;
  }

  // ---------------------------------------------------------------------------
  // Pass 3: newlines, /\n/g
  // ---------------------------------------------------------------------------

  /** Pass 3 of formatMessage (static/script.js:140): every newline becomes `<br>`. */
  function Newlines(s: string): (r: string)
    ensures forall i :: 0 <= i < |r| ==> r[i] != '\n'
    ensures '\n' !in s ==> r == s
    ensures |r| == |s| + 3 * Count(s, '\n')
    decreases |s|
  {
    if s == [] then []
    else (if s[0] == '\n' then "<br>" else [s[0]]) + Newlines(s[1..])
  }

  lemma {:induction false} NewlinesAppend(a: string, b: string)
    ensures Newlines(a + b) == Newlines(a) + Newlines(b)
    decreases |a|
  {
    if a == [] {
      assert a + b == b;
    } else {
      var x := if a[0] == '\n' then "<br>" else [a[0]];
      AppendHead(a, b);
      NewlinesAppend(a[1..], b);
      SeqAssoc(x, Newlines(a[1..]), Newlines(b));
    }
  }

  // ---------------------------------------------------------------------------
  // formatMessage
  // ---------------------------------------------------------------------------

  /** formatMessage (static/script.js:130-143): fences, then inline spans, then newlines. */
  function FormatMessage(text: string): (html: string)
    ensures forall i :: 0 <= i < |html| ==> html[i] != '\n'
  {
    Newlines(Inline(Fences(text)))
  }

  lemma NoBacktickNoTriple(s: string)
    requires '`' !in s
    ensures NoTriple(s)
  {
    forall j | 0 <= j < |s| ensures !TripleAt(s, j) {
      assert s[j] in s;
    }
  }

  /** Text with no backtick and no newline is returned unchanged. */
  lemma FormatPlainText(text: string)
    requires '`' !in text && '\n' !in text
    ensures FormatMessage(text) == text
  {
    NoBacktickNoTriple(text);
  }

  /**
   * A message that is one fenced block with a backtick-free body formats to the code
   * block, with the newlines kept inside the trimmed body turned into `<br>` by pass 3.
   */
  lemma FormatFencedBlock(lang: string, body: string)
    requires AllWord(lang) && '`' !in body
    ensures FormatMessage("```" + lang + "\n" + body + "```")
         == PreOpen + Newlines(EscapeHtml(Trim(body, IsJsSpace))) + PreClose
  {
    var s := "```" + lang + "\n" + body + "```";
    var e := EscapeHtml(Trim(body, IsJsSpace));
    var f := Fences(s);
    assert f == PreOpen + e + PreClose && '`' !in e by {
      FencedBlockFirstPass(lang, body);
    }
    assert Newlines(Inline(f)) == PreOpen + Newlines(e) + PreClose by {
      PreTagsPlain();
      LaterPassesBetween(PreOpen, e, PreClose);
    }
  }

  /** The markup around a code block holds neither backticks nor newlines. */
  lemma PreTagsPlain()
    ensures '`' !in PreOpen && '`' !in PreClose && '\n' !in PreOpen && '\n' !in PreClose
  {
    assert PreOpen == "<pre><code>" && PreClose == "</code></pre>";
  }

  /** The fence pass on a lone block whose body holds no backtick leaves no backtick behind. */
  lemma FencedBlockFirstPass(lang: string, body: string)
    requires AllWord(lang) && '`' !in body
    ensures Fences("```" + lang + "\n" + body + "```") == PreOpen + EscapeHtml(Trim(body, IsJsSpace)) + PreClose
    ensures '`' !in EscapeHtml(Trim(body, IsJsSpace))
  {
    var s := "```" + lang + "\n" + body + "```";
    NoBacktickClosesFirst(body);
    FencesBlock(lang, body, "");
    assert s + "" == s;
    assert Fences("") == [];
    TrimKeepsCharacters(body, IsJsSpace, '`');
    EscapeHtmlKeepsNewlinesAndBackticks(Trim(body, IsJsSpace), '`');
  }

  /**
   * Passes 2 and 3 on backtick-free text between markup that holds neither backticks nor
   * newlines: only the newlines of the text change.
   */
  lemma LaterPassesBetween(a: string, e: string, b: string)
    requires '`' !in a && '`' !in e && '`' !in b
    requires '\n' !in a && '\n' !in b
    ensures Newlines(Inline(a + e + b)) == a + Newlines(e) + b
  {
    assert a + e + b == a + (e + b);
    calc {
      Inline(a + (e + b));
      { InlineSkipsPlain(a, e + b); }
      a + Inline(e + b);
      { InlineSkipsPlain(e, b); }
      a + (e + b);
    }
    calc {
      Newlines(a + (e + b));
      { NewlinesAppend(a, e + b); }
      a + Newlines(e + b);
      { NewlinesAppend(e, b); }
      a + (Newlines(e) + b);
    }
  }

  /**
   * Backtick-free text in front of a lone fenced block: the text is kept, its newlines
   * becoming `<br>`, and the block is formatted as on its own.
   */
  lemma FormatTextThenBlock(a: string, lang: string, body: string)
    requires '`' !in a && AllWord(lang) && '`' !in body
    ensures FormatMessage(a + ("```" + lang + "\n" + body + "```"))
         == Newlines(a) + (PreOpen + Newlines(EscapeHtml(Trim(body, IsJsSpace))) + PreClose)
  {
    var f := "```" + lang + "\n" + body + "```";
    var e := EscapeHtml(Trim(body, IsJsSpace));
    var g := PreOpen + e + PreClose;
    FencedBlockFirstPass(lang, body);
    assert Fences(a + f) == a + g by {
      FencesSkipsPlain(a, f);
    }
    assert Inline(g) == g && Newlines(g) == PreOpen + Newlines(e) + PreClose by {
      PreTagsPlain();
      NotInJoin(PreOpen, e, PreClose, '`');
      LaterPassesBetween(PreOpen, e, PreClose);
    }
    assert Inline(a + g) == a + g by {
      InlineSkipsPlain(a, g);
    }
    NewlinesAppend(a, g);
  }

  /** Two lines of plain text are joined by `<br>`. */
  lemma FormatTwoLines(a: string, b: string)
    requires '`' !in a && '`' !in b && '\n' !in a && '\n' !in b
    ensures FormatMessage(a + "\n" + b) == a + "<br>" + b
  {
    var s := a + "\n" + b;
    NotInJoin(a, "\n", b, '`');
    NoBacktickNoTriple(s);
    SeqAssoc(a, "\n", b);
    NewlinesAppend(a, "\n" + b);
    NewlinesAppend("\n", b);
    assert Newlines("\n") == "<br>";
    SeqAssoc(a, "<br>", b);
  }

  /** "line1\nline2" formats to "line1<br>line2". */
  lemma FormatLineBreakExample()
    ensures FormatMessage("line1\nline2") == "line1<br>line2"
  {
    assert "line1" + "\n" + "line2" == "line1\nline2";
    assert "line1" + "<br>" + "line2" == "line1<br>line2";
    assert FormatMessage("line1" + "\n" + "line2") == "line1" + "<br>" + "line2" by {
      assert '`' !in "line1" && '`' !in "line2" && '\n' !in "line1" && '\n' !in "line2";
      FormatTwoLines("line1", "line2");
    }
  }

  /**
   * An untagged block whose body is one line of code with a trailing newline: the newline
   * is trimmed away and nothing else changes.
   */
  lemma FormatOneLineBlock(code: string)
    requires code != [] && !IsJsSpace(code[0]) && !IsJsSpace(code[|code| - 1])
    requires Plain(code) && '\n' !in code && '`' !in code
    ensures FormatMessage("```\n" + code + "\n```") == "<pre><code>" + code + "</code></pre>"
  {
    var body := code + "\n";
    assert "```\n" + code + "\n```" == "```" + "" + "\n" + body + "```";
    assert '`' !in body;
    FormatFencedBlock("", body);
    assert Trim(body, IsJsSpace) == code by {
      assert LeadingSpaces(body, IsJsSpace) == 0;
      assert body[0..] == body && body[..|body| - 1] == code;
    }
  }

  /** The example of a fenced block without a tag: its body's trailing newline is trimmed away. */
  lemma FormatCodeBlockExample()
    ensures FormatMessage("```\nconst x = 1;\n```") == "<pre><code>const x = 1;</code></pre>"
  {
    CodeExampleInput();
    CodeExampleOutput();
    CodeExampleLine();
    FormatOneLineBlock("const x = 1;");
  }

  // The literal facts of the examples, each kept apart from the formatter's definitions.

  lemma CodeExampleInput()
    ensures "```\nconst x = 1;\n```" == "```\n" + "const x = 1;" + "\n```"
  {
  }

  lemma CodeExampleOutput()
    ensures "<pre><code>const x = 1;</code></pre>" == "<pre><code>" + "const x = 1;" + "</code></pre>"
  {
  }

  lemma CodeExampleLine()
    ensures Plain("const x = 1;") && '\n' !in "const x = 1;" && '`' !in "const x = 1;"
  {
  }

  /** Backticks that are never adjacent form no fence. */
  lemma SpanHasNoTriple(a: string, x: string, b: string)
    requires x != [] && '`' !in a && '`' !in x && '`' !in b
    ensures NoTriple(a + "`" + x + "`" + b)
  {
    var s := a + "`" + x + "`" + b;
    forall j | 0 <= j < |s| ensures !TripleAt(s, j) {
      if j < |a| { assert s[j] == a[j]; }
      else if j == |a| { assert s[j + 1] == x[0]; }
      else if j <= |a| + |x| { assert s[j] == x[j - |a| - 1]; }
      else if j == |a| + |x| + 1 && j + 1 < |s| { assert s[j + 1] == b[0]; }
      else if j > |a| + |x| + 1 { assert s[j] == b[j - |a| - |x| - 2]; }
    }
  }

  /** Pass 2 on one span between backtick-free text. */
  lemma InlineAroundSpan(a: string, x: string, b: string)
    requires x != [] && '`' !in a && '`' !in x && '`' !in b
    ensures Inline(a + ("`" + x + "`" + b)) == a + ("<code>" + x + "</code>" + b)
  {
    var t := "`" + x + "`" + b;
    assert Inline(a + t) == a + Inline(t) by {
      InlineSkipsPlain(a, t);
    }
    assert Inline(t) == "<code>" + x + "</code>" + b by {
      InlineSpan(x, b);
    }
  }

  /**
   * A span between plain text: `<code>` + content + `</code>`, the content copied
   * verbatim, not escaped.
   */
  lemma FormatInlineSpan(a: string, x: string, b: string)
    requires x != [] && '`' !in a && '`' !in x && '`' !in b
    requires '\n' !in a && '\n' !in x && '\n' !in b
    ensures FormatMessage(a + "`" + x + "`" + b) == a + "<code>" + x + "</code>" + b
  {
    SpanHasNoTriple(a, x, b);
    Regroup(a, "`", x, "`", b);
    Regroup(a, "<code>", x, "</code>", b);
    InlineAroundSpan(a, x, b);
    NotInJoin(a, "<code>", x, '\n');
    NotInJoin(a + "<code>" + x, "</code>", b, '\n');
  }

  /** An inline span in running text: "Use `foo()` please". */
  lemma FormatInlineExample()
    ensures FormatMessage("Use `foo()` please") == "Use <code>foo()</code> please"
  {
    InlineExampleInput();
    InlineExampleOutput();
    InlineExamplePieces();
    FormatInlineSpan("Use ", "foo()", " please");
  }

  lemma InlineExampleInput()
    ensures "Use `foo()` please" == "Use " + "`" + "foo()" + "`" + " please"
  {
  }

  lemma InlineExampleOutput()
    ensures "Use <code>foo()</code> please" == "Use " + "<code>" + "foo()" + "</code>" + " please"
  {
  }

  lemma InlineExamplePieces()
    ensures '`' !in "Use " && '`' !in "foo()" && '`' !in " please"
    ensures '\n' !in "Use " && '\n' !in "foo()" && '\n' !in " please"
  {
  }

  /** Inline spans are not escaped: markup inside one reaches the page as markup. */
  lemma FormatInlineNotEscaped()
    ensures FormatMessage("`<b>`") == "<code><b></code>"
  {
    assert "`<b>`" == "" + "`" + "<b>" + "`" + "";
    assert "<code><b></code>" == "" + "<code>" + "<b>" + "</code>" + "";
    assert FormatMessage("" + "`" + "<b>" + "`" + "") == "" + "<code>" + "<b>" + "</code>" + "" by {
      FormatInlineSpan("", "<b>", "");
    }
  }
}
