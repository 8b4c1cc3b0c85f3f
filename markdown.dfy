/**
 * `renderContent` of the chat's Markdown component: a fixed chain of global
 * replacements over the message text. HTML special characters are escaped,
 * then fenced code blocks, inline code, links, bold, italic and line breaks
 * are rewritten to HTML, each step scanning the output of the one before.
 */
module Markdown {
  import opened Wrappers
  import opened JsText
  import opened HtmlMarkup

  // ---------------------------------------------------------------------
  // Literal replacement

  /**
   * `s.replace(/pat/g, rep)` for a pattern without metacharacters: scan left
   * to right, replace each occurrence, resume after it.
   */
  function ReplaceAll(s: string, pat: string, rep: string): string
    requires pat != []
    decreases |s|
  {
    if s == [] then []
    else if StartsWith(s, pat) then rep + ReplaceAll(s[|pat|..], pat, rep)
    else [s[0]] + ReplaceAll(s[1..], pat, rep)
  }

  /** Rewriting every character of `s` into a string of its own. */
  function MapChars(s: string, f: char -> string): string
  {
    if s == [] then [] else f(s[0]) + MapChars(s[1..], f)
  }

  lemma {:induction false} MapCharsAppend(a: string, b: string, f: char -> string)
    ensures MapChars(a + b, f) == MapChars(a, f) + MapChars(b, f)
  {
    if a == [] {
      assert a + b == b;
    } else {
      assert (a + b)[0] == a[0] && (a + b)[1..] == a[1..] + b;
      MapCharsAppend(a[1..], b, f);
    }
  }

  lemma {:induction false} MapCharsFixed(s: string, f: char -> string)
    requires forall c :: c in s ==> f(c) == [c]
    ensures MapChars(s, f) == s
  {
    if s != [] {
      forall c | c in s[1..] ensures f(c) == [c] {
        assert c in s;
      }
      MapCharsFixed(s[1..], f);
      assert f(s[0]) == [s[0]];
      assert s == [s[0]] + s[1..];
    }
  }

  lemma {:induction false} MapCharsAvoids(s: string, f: char -> string, x: char)
    requires forall c :: c in s ==> x !in f(c)
    ensures x !in MapChars(s, f)
  {
    if s != [] {
      assert forall c :: c in s[1..] ==> c in s;
      MapCharsAvoids(s[1..], f, x);
    }
  }

  /** Whether a piece of text can never hold the start of an occurrence of `pat`, whatever follows it. */
  predicate SafeToken(t: string, pat: string)
    requires pat != []
  {
    || pat[0] !in t
    || (|pat| >= 2 && |t| >= 2 && t[0] == pat[0] && t[1] != pat[1] && pat[0] !in t[1..])
  }

  lemma {:induction false} ReplaceAllSkips(t: string, u: string, pat: string, rep: string)
    requires pat != [] && pat[0] !in t
    ensures ReplaceAll(t + u, pat, rep) == t + ReplaceAll(u, pat, rep)
  {
    if t == [] {
      assert t + u == u;
    } else {
      var s := t + u;
      assert s[0] == t[0] && s[1..] == t[1..] + u;
      assert !StartsWith(s, pat) by {
        if |pat| <= |s| { assert s[..|pat|][0] == s[0]; }
      }
      ReplaceAllSkips(t[1..], u, pat, rep);
    }
  }

  lemma ReplaceAllSafe(t: string, u: string, pat: string, rep: string)
    requires pat != [] && SafeToken(t, pat)
    ensures ReplaceAll(t + u, pat, rep) == t + ReplaceAll(u, pat, rep)
  {
    if pat[0] in t {
      var s := t + u;
      assert s[0] == t[0] && s[1] == t[1] && s[1..] == t[1..] + u;
      assert !StartsWith(s, pat) by {
        if |pat| <= |s| { assert s[..|pat|][1] == s[1]; }
      }
      ReplaceAllSkips(t[1..], u, pat, rep);
      assert [t[0]] + t[1..] == t;
    } else {
      ReplaceAllSkips(t, u, pat, rep);
    }
  }

  lemma ReplaceAllMatch(u: string, pat: string, rep: string)
    requires pat != []
    ensures ReplaceAll(pat + u, pat, rep) == rep + ReplaceAll(u, pat, rep)
  {
    var s := pat + u;
    assert s[..|pat|] == pat && s[|pat|..] == u;
  }

  /** A character whose piece is exactly the pattern and becomes the replacement, or holds no occurrence and stays. */
  predicate PieceStep(f: char -> string, g: char -> string, pat: string, rep: string, c: char)
    requires pat != []
  {
    (f(c) == pat && g(c) == rep) || (f(c) == g(c) && SafeToken(f(c), pat))
  }

  /**
   * Replacing over text built character by character: when each character's
   * piece is either exactly the pattern (which becomes the replacement) or can
   * hold no occurrence, the replacement works piece by piece.
   */
  lemma {:induction false} ReplaceAllPieces(s: string, f: char -> string, g: char -> string, pat: string, rep: string)
    requires pat != []
    requires forall c :: c in s ==> PieceStep(f, g, pat, rep, c)
    ensures ReplaceAll(MapChars(s, f), pat, rep) == MapChars(s, g)
  {
    if s != [] {
      var c := s[0];
      assert c in s;
      assert forall d :: d in s[1..] ==> d in s;
      ReplaceAllPieces(s[1..], f, g, pat, rep);
      if f(c) == pat && g(c) == rep {
        ReplaceAllMatch(MapChars(s[1..], f), pat, rep);
      } else {
        ReplaceAllSafe(f(c), MapChars(s[1..], f), pat, rep);
      }
    }
  }

  lemma {:induction false} ReplaceAllAvoids(s: string, pat: string, rep: string, x: char)
    requires pat != [] && x !in s && x !in rep
    ensures x !in ReplaceAll(s, pat, rep)
    decreases |s|
  {
    if s != [] {
      if StartsWith(s, pat) {
        assert forall c :: c in s[|pat|..] ==> c in s;
        ReplaceAllAvoids(s[|pat|..], pat, rep, x);
      } else {
        assert forall c :: c in s[1..] ==> c in s;
        ReplaceAllAvoids(s[1..], pat, rep, x);
      }
    }
  }

  // ---------------------------------------------------------------------
  // Escaping

  /** `&`, `<` and `>` replaced in turn, `&` first. */
  function Escape(s: string): string
  {
    ReplaceAll(ReplaceAll(ReplaceAll(s, "&", "&amp;"), "<", "&lt;"), ">", "&gt;")
  }

  function KeepChar(c: char): string { [c] }

  /** The entity of one character: the reference definition of escaping. */
  function EscapeChar(c: char): string
  {
    if c == '&' then "&amp;" else if c == '<' then "&lt;" else if c == '>' then "&gt;" else [c]
  }

  function EscapeChars(s: string): string { MapChars(s, EscapeChar) }

  // The text between the three replacements, one character at a time.
  function AmpOnly(c: char): string { if c == '&' then "&amp;" else [c] }
  function AmpAndLt(c: char): string { if c == '&' then "&amp;" else if c == '<' then "&lt;" else [c] }
  function AmpAndGt(c: char): string { if c == '&' then "&amp;" else if c == '>' then "&gt;" else [c] }
  function AnglesOnly(c: char): string { if c == '<' then "&lt;" else if c == '>' then "&gt;" else [c] }
  function GtOnly(c: char): string { if c == '>' then "&gt;" else [c] }

  /**
   * The three replacements turn each `&`, `<` and `>` into its entity exactly
   * once: because `&` goes first, no entity produced is escaped again.
   */
  lemma EscapeIsPerChar(s: string)
    ensures Escape(s) == EscapeChars(s)
  {
    MapCharsFixed(s, KeepChar);
    EscapeSteps();
    ReplaceAllPieces(s, KeepChar, AmpOnly, "&", "&amp;");
    ReplaceAllPieces(s, AmpOnly, AmpAndLt, "<", "&lt;");
    ReplaceAllPieces(s, AmpAndLt, EscapeChar, ">", "&gt;");
  }

  lemma EscapeSteps()
    ensures forall c :: PieceStep(KeepChar, AmpOnly, "&", "&amp;", c)
    ensures forall c :: PieceStep(AmpOnly, AmpAndLt, "<", "&lt;", c)
    ensures forall c :: PieceStep(AmpAndLt, EscapeChar, ">", "&gt;", c)
  {
  }

  /** No `<` or `>` is left after escaping. */
  lemma EscapeRemovesAngles(s: string)
    ensures '<' !in Escape(s) && '>' !in Escape(s)
  {
    EscapeIsPerChar(s);
    MapCharsAvoids(s, EscapeChar, '<');
    MapCharsAvoids(s, EscapeChar, '>');
  }

  /** The entities decoded in the safe order: `&lt;`, `&gt;`, then `&amp;`. */
  function DecodeEntities(s: string): string
  {
    ReplaceAll(ReplaceAll(ReplaceAll(s, "&lt;", "<"), "&gt;", ">"), "&amp;", "&")
  }

  /** Escaping loses nothing: decoding `&amp;` last restores any text. */
  lemma DecodeEntitiesInvertsEscape(s: string)
    ensures DecodeEntities(Escape(s)) == s
  {
    EscapeIsPerChar(s);
    DecodeSteps();
    ReplaceAllPieces(s, EscapeChar, AmpAndGt, "&lt;", "<");
    ReplaceAllPieces(s, AmpAndGt, AmpOnly, "&gt;", ">");
    ReplaceAllPieces(s, AmpOnly, KeepChar, "&amp;", "&");
    MapCharsFixed(s, KeepChar);
  }

  lemma DecodeSteps()
    ensures forall c :: PieceStep(EscapeChar, AmpAndGt, "&lt;", "<", c)
    ensures forall c :: PieceStep(AmpAndGt, AmpOnly, "&gt;", ">", c)
    ensures forall c :: PieceStep(AmpOnly, KeepChar, "&amp;", "&", c)
  {
  }

  /** The un-escaping of a code block's body: `&amp;` first, then `&lt;`, then `&gt;`. */
  function UnescapeCode(s: string): string
  {
    ReplaceAll(ReplaceAll(ReplaceAll(s, "&amp;", "&"), "&lt;", "<"), "&gt;", ">")
  }

  /**
   * Code without `&` comes back from escaping and un-escaping as it was:
   * its raw `<` and `>` reappear in the HTML.
   */
  lemma UnescapeCodeRestoresRaw(s: string)
    requires '&' !in s
    ensures UnescapeCode(Escape(s)) == s
  {
    EscapeIsPerChar(s);
    UnescapeSteps();
    ReplaceAllPieces(s, EscapeChar, AnglesOnly, "&amp;", "&");
    ReplaceAllPieces(s, AnglesOnly, GtOnly, "&lt;", "<");
    ReplaceAllPieces(s, GtOnly, KeepChar, "&gt;", ">");
    MapCharsFixed(s, KeepChar);
  }

  /** Away from `&`, un-escaping undoes escaping one character at a time. */
  lemma UnescapeSteps()
    ensures forall c :: PieceStep(EscapeChar, AnglesOnly, "&amp;", "&", c)
    ensures forall c :: c != '&' ==> PieceStep(AnglesOnly, GtOnly, "&lt;", "<", c)
    ensures forall c :: c != '&' ==> PieceStep(GtOnly, KeepChar, "&gt;", ">", c)
  {
  }

  /**
   * Because `&amp;` is un-escaped first, the text `&lt;` typed in a code block
   * comes out as a raw `<`.
   */
  lemma UnescapeCodeOfEntityText()
    ensures UnescapeCode(Escape("&lt;")) == "<"
  {
    var s := "&lt;";
    assert ReplaceAll(Escape(s), "&amp;", "&") == s by {
      EscapeIsPerChar(s);
      UnescapeSteps();
      ReplaceAllPieces(s, EscapeChar, AnglesOnly, "&amp;", "&");
      MapCharsFixed(s, AnglesOnly);
    }
    assert ReplaceAll(s, "&lt;", "<") == "<" by {
      ReplaceAllMatch([], "&lt;", "<");
      assert "&lt;" + [] == s;
    }
    assert ReplaceAll("<", "&gt;", ">") == "<" by {
      ReplaceAllSkips("<", [], "&gt;", ">");
      assert "<" + [] == "<";
    }
  }

  // ---------------------------------------------------------------------
  // Fenced code blocks

  const Fence := "```"

  /** `\w` */
  predicate IsWordChar(c: char)
  {
    'a' <= c <= 'z' || 'A' <= c <= 'Z' || '0' <= c <= '9' || c == '_'
  }

  datatype FencedBlock = FencedBlock(lang: string, body: string, rest: string)

  /**
   * A match of ```` /```(\w+)?\n([\s\S]*?)```/ ```` at the head of `s`: the
   * fence, a run of word characters, a newline, and the body up to the first
   * closing fence.
   */
  function FenceAt(s: string): (r: Option<FencedBlock>)
    ensures r.Some? ==> |r.value.lang| + |r.value.body| + |r.value.rest| + 7 == |s|
    ensures r.Some? ==> s[0] == '`'
  {
    if |s| < 3 || s[..3] != Fence then None
    else
      assert s[0] == s[..3][0];
      AfterFence(s[3..])
  }

  /** The rest of a block match once the opening fence is read. */
  function AfterFence(t: string): (r: Option<FencedBlock>)
    ensures r.Some? ==> |r.value.lang| + |r.value.body| + |r.value.rest| + 4 == |t|
  {
    var w := SpanLength(t, IsWordChar);
    if w == |t| || t[w] != '\n' then None
    else
      var u := t[w + 1..];
      match IndexOf(u, Fence)
      case None => None
      case Some(k) => Some(FencedBlock(t[..w], u[..k], u[k + 3..]))
  }

  /**
   * A block match covers the fence, a language of word characters, a newline,
   * the body, and the first closing fence after the newline.
   */
  lemma FenceAtSound(s: string)
    requires FenceAt(s).Some?
    ensures var b := FenceAt(s).value;
            && s == Fence + b.lang + "\n" + b.body + Fence + b.rest
            && (forall c :: c in b.lang ==> IsWordChar(c))
            && IndexOf(b.body + Fence + b.rest, Fence) == Some(|b.body|)
  {
    var t := s[3..];
    var w := SpanLength(t, IsWordChar);
    var u := t[w + 1..];
    var k := IndexOf(u, Fence).value;
    FencePieces(s, w, k);
    assert forall i :: 0 <= i < w ==> t[..w][i] == t[i];
  }

  lemma FencePieces(s: string, w: nat, k: nat)
    requires |s| >= 3 && s[..3] == Fence
    requires w < |s[3..]| && s[3..][w] == '\n'
    requires OccursAt(s[3..][w + 1..], Fence, k)
    ensures var t := s[3..]; var u := t[w + 1..];
            && u == u[..k] + Fence + u[k + 3..]
            && s == Fence + t[..w] + "\n" + u[..k] + Fence + u[k + 3..]
  {
    var t := s[3..];
    var u := t[w + 1..];
    assert u == u[..k] + u[k..k + 3] + u[k + 3..];
    assert t == t[..w] + "\n" + u;
    assert s == s[..3] + t;
  }

  /** Conversely, every text of that shape is matched, with that language, body and rest. */
  lemma FenceAtMatches(lang: string, body: string, rest: string)
    requires forall c :: c in lang ==> IsWordChar(c)
    requires IndexOf(body + Fence + rest, Fence) == Some(|body|)
    ensures FenceAt(Fence + lang + "\n" + body + Fence + rest) == Some(FencedBlock(lang, body, rest))
  {
    var tail := body + Fence + rest;
    var t := lang + "\n" + tail;
    assert Fence + lang + "\n" + body + Fence + rest == Fence + t;
    assert (Fence + t)[..3] == Fence && (Fence + t)[3..] == t;
    AfterFenceMatches(lang, tail, body, rest);
  }

  lemma AfterFenceMatches(lang: string, tail: string, body: string, rest: string)
    requires forall c :: c in lang ==> IsWordChar(c)
    requires tail == body + Fence + rest
    requires IndexOf(tail, Fence) == Some(|body|)
    ensures AfterFence(lang + "\n" + tail) == Some(FencedBlock(lang, body, rest))
  {
    var t := lang + "\n" + tail;
    forall i | 0 <= i < |lang| ensures IsWordChar(t[i]) {
      assert t[i] == lang[i];
    }
    SpanLengthIs(t, IsWordChar, |lang|);
    assert t[..|lang|] == lang && t[|lang|] == '\n' && t[|lang| + 1..] == tail;
    assert tail[..|body|] == body && tail[|body| + 3..] == rest;
  }

  /** `html.replace(/```(\w+)?\n([\s\S]*?)```/g, …)`: each block becomes a `<pre><code>` with its body un-escaped. */
  function CodeBlocks(s: string): (r: string)
    ensures '`' !in s ==> r == s
    decreases |s|
  {
    if s == [] then []
    else match FenceAt(s)
      case Some(b) =>
        PreOpen + UnescapeCode(b.body) + PreClose + CodeBlocks(b.rest)
      case None =>
        assert forall c :: c in s[1..] ==> c in s;
        [s[0]] + CodeBlocks(s[1..])
  }

  // ---------------------------------------------------------------------
  // Inline code, links, bold and italic

  const InlineOpen := "<code class=\"bg-gray-100 dark:bg-gray-800 px-1.5 py-0.5 rounded text-sm font-mono\">"
  const InlineClose := "</code>"
  const AnchorTail := "\" target=\"_blank\" rel=\"noopener noreferrer\" class=\"text-blue-600 hover:underline\">"

  /** A one-group match: the captured text and what follows the match. */
  datatype Capture = Capture(group: string, rest: string)

  predicate InlineCodeChar(c: char) { c != '`' && c != '\n' }

  /** A match of ``/`([^`\n]+)`/`` at the head of `s`. */
  function InlineCodeAt(s: string): (r: Option<Capture>)
    ensures r.Some? ==> |r.value.group| + |r.value.rest| + 2 == |s|
    ensures r.Some? ==> r.value.group != [] && '`' !in r.value.group && '\n' !in r.value.group
  {
    if s == [] || s[0] != '`' then None else InlineCodeAfter(s[1..])
  }

  /** The rest of an inline code match once the opening backtick is read. */
  function InlineCodeAfter(t: string): (r: Option<Capture>)
    ensures r.Some? ==> |r.value.group| + |r.value.rest| + 1 == |t|
    ensures r.Some? ==> r.value.group != [] && '`' !in r.value.group && '\n' !in r.value.group
  {
    var n := SpanLength(t, InlineCodeChar);
    if n == 0 || n == |t| || t[n] != '`' then None
    else
      assert forall k :: 0 <= k < n ==> t[..n][k] == t[k];
      Some(Capture(t[..n], t[n + 1..]))
  }

  /** An inline code match covers exactly its backticks and its group. */
  lemma InlineCodeAtSound(s: string)
    requires InlineCodeAt(s).Some?
    ensures var m := InlineCodeAt(s).value; s == "`" + (m.group + ("`" + m.rest))
  {
    var t := s[1..];
    var n := SpanLength(t, InlineCodeChar);
    assert t[n] == '`';
    assert t == t[..n] + ("`" + t[n + 1..]);
    assert s == "`" + t;
  }

  function InlineCode(s: string): (r: string)
    ensures '`' !in s ==> r == s
    decreases |s|
  {
    if s == [] then []
    else match InlineCodeAt(s)
      case Some(m) => InlineOpen + m.group + InlineClose + InlineCode(m.rest)
      case None =>
        assert forall c :: c in s[1..] ==> c in s;
        [s[0]] + InlineCode(s[1..])
  }

  /** `` `x` `` with `x` non-empty and free of backticks and newlines becomes an inline `<code>`. */
  lemma InlineCodeWraps(x: string, rest: string)
    requires x != [] && '`' !in x && '\n' !in x
    ensures InlineCode("`" + (x + ("`" + rest))) == InlineOpen + x + InlineClose + InlineCode(rest)
  {
    var t := x + ("`" + rest);
    assert ("`" + t)[1..] == t;
    InlineCodeAfterMatches(x, rest);
  }

  lemma InlineCodeAfterMatches(x: string, rest: string)
    requires x != [] && '`' !in x && '\n' !in x
    ensures InlineCodeAfter(x + ("`" + rest)) == Some(Capture(x, rest))
  {
    var t := x + ("`" + rest);
    forall i | 0 <= i < |x| ensures InlineCodeChar(t[i]) {
      assert t[i] == x[i];
    }
    SpanLengthIs(t, InlineCodeChar, |x|);
    assert t[..|x|] == x && t[|x|] == '`' && t[|x| + 1..] == rest;
  }

  datatype LinkParts = LinkParts(text: string, href: string, rest: string)

  /** The markup a link match covers, followed by the rest. */
  function LinkSource(p: LinkParts): string
  {
    "[" + (p.text + ("](" + (p.href + (")" + p.rest))))
  }

  predicate NotCloseBracket(c: char) { c != ']' }
  predicate NotCloseParen(c: char) { c != ')' }

  /** A match of `/\[([^\]]+)\]\(([^)]+)\)/` at the head of `s`. */
  function LinkAt(s: string): (r: Option<LinkParts>)
    ensures r.Some? ==> |r.value.text| + |r.value.href| + |r.value.rest| + 4 == |s|
    ensures r.Some? ==> r.value.text != [] && ']' !in r.value.text && r.value.href != [] && ')' !in r.value.href
  {
    if s == [] || s[0] != '[' then None else LinkAfterBracket(s[1..])
  }

  /** The rest of a link match once the `[` is read: the text up to `]`, then `(`. */
  function LinkAfterBracket(u: string): (r: Option<LinkParts>)
    ensures r.Some? ==> |r.value.text| + |r.value.href| + |r.value.rest| + 3 == |u|
    ensures r.Some? ==> r.value.text != [] && ']' !in r.value.text && r.value.href != [] && ')' !in r.value.href
  {
    var n := SpanLength(u, NotCloseBracket);
    if n == 0 || n + 1 >= |u| || u[n + 1] != '(' then None
    else
      assert forall k :: 0 <= k < n ==> u[..n][k] == u[k];
      LinkTarget(u[..n], u[n + 2..])
  }

  /** The end of a link match once `](` is read: the target up to `)`. */
  function LinkTarget(text: string, t: string): (r: Option<LinkParts>)
    ensures r.Some? ==> r.value.text == text && |r.value.href| + |r.value.rest| + 1 == |t|
    ensures r.Some? ==> r.value.href != [] && ')' !in r.value.href
  {
    var m := SpanLength(t, NotCloseParen);
    if m == 0 || m == |t| then None
    else
      assert forall k :: 0 <= k < m ==> t[..m][k] == t[k];
      Some(LinkParts(text, t[..m], t[m + 1..]))
  }

  /** A link match covers exactly the markup of its text and target. */
  lemma LinkAtSound(s: string)
    requires LinkAt(s).Some?
    ensures s == LinkSource(LinkAt(s).value)
  {
    var u := s[1..];
    LinkAfterBracketSound(u);
    assert s == "[" + u;
  }

  lemma LinkAfterBracketSound(u: string)
    requires LinkAfterBracket(u).Some?
    ensures var p := LinkAfterBracket(u).value; u == p.text + ("](" + (p.href + (")" + p.rest)))
  {
    var n := SpanLength(u, NotCloseBracket);
    var t := u[n + 2..];
    LinkTargetSound(u[..n], t);
    assert u[n] == ']';
    assert u == u[..n] + ("](" + t);
  }

  lemma LinkTargetSound(text: string, t: string)
    requires LinkTarget(text, t).Some?
    ensures var p := LinkTarget(text, t).value; t == p.href + (")" + p.rest)
  {
    var m := SpanLength(t, NotCloseParen);
    assert t[m] == ')';
    assert t == t[..m] + (")" + t[m + 1..]);
  }

  function Anchor(text: string, href: string): string
  {
    "<a href=\"" + href + AnchorTail + text + "</a>"
  }

  function Links(s: string): (r: string)
    ensures '[' !in s ==> r == s
    decreases |s|
  {
    if s == [] then []
    else match LinkAt(s)
      case Some(l) => Anchor(l.text, l.href) + Links(l.rest)
      case None =>
        assert forall c :: c in s[1..] ==> c in s;
        [s[0]] + Links(s[1..])
  }

  /** `[t](u)` becomes an anchor to `u` reading `t`. */
  lemma LinkWraps(text: string, href: string, rest: string)
    requires text != [] && ']' !in text && href != [] && ')' !in href
    ensures Links(LinkSource(LinkParts(text, href, rest))) == Anchor(text, href) + Links(rest)
  {
    LinkAtMatches(LinkParts(text, href, rest));
  }

  /** The markup of any text without `]` and target without `)` is matched back to its parts. */
  lemma LinkAtMatches(p: LinkParts)
    requires p.text != [] && ']' !in p.text && p.href != [] && ')' !in p.href
    ensures LinkAt(LinkSource(p)) == Some(p)
  {
    var t := p.href + (")" + p.rest);
    var u := p.text + ("](" + t);
    assert LinkSource(p)[1..] == u;
    LinkAfterBracketMatches(p.text, t);
    LinkTargetMatches(p.text, p.href, p.rest);
  }

  lemma LinkAfterBracketMatches(text: string, t: string)
    requires text != [] && ']' !in text
    ensures LinkAfterBracket(text + ("](" + t)) == LinkTarget(text, t)
  {
    var u := text + ("](" + t);
    var n := |text|;
    forall i | 0 <= i < n ensures NotCloseBracket(u[i]) {
      assert u[i] == text[i];
    }
    SpanLengthIs(u, NotCloseBracket, n);
    assert u[..n] == text && u[n + 1] == '(' && u[n + 2..] == t;
  }

  lemma LinkTargetMatches(text: string, href: string, rest: string)
    requires href != [] && ')' !in href
    ensures LinkTarget(text, href + (")" + rest)) == Some(LinkParts(text, href, rest))
  {
    var t := href + (")" + rest);
    forall i | 0 <= i < |href| ensures NotCloseParen(t[i]) {
      assert t[i] == href[i];
    }
    SpanLengthIs(t, NotCloseParen, |href|);
    assert t[..|href|] == href && t[|href| + 1..] == rest;
  }

  predicate NotStar(c: char) { c != '*' }

  /** A match of bold markup, two stars, a run of non-stars, two stars, at the head of `s`. */
  function BoldAt(s: string): (r: Option<Capture>)
    ensures r.Some? ==> |r.value.group| + |r.value.rest| + 4 == |s|
    ensures r.Some? ==> r.value.group != [] && '*' !in r.value.group
  {
    if |s| < 2 || s[0] != '*' || s[1] != '*' then None else BoldAfter(s[2..])
  }

  /** The rest of a bold match once the two opening stars are read. */
  function BoldAfter(t: string): (r: Option<Capture>)
    ensures r.Some? ==> |r.value.group| + |r.value.rest| + 2 == |t|
    ensures r.Some? ==> r.value.group != [] && '*' !in r.value.group
  {
    var n := SpanLength(t, NotStar);
    if n == 0 || n + 1 >= |t| || t[n + 1] != '*' then None
    else
      assert forall k :: 0 <= k < n ==> t[..n][k] == t[k];
      Some(Capture(t[..n], t[n + 2..]))
  }

  /** A bold match covers exactly its four stars and its group. */
  lemma BoldAtSound(s: string)
    requires BoldAt(s).Some?
    ensures var m := BoldAt(s).value; s == "**" + (m.group + ("**" + m.rest))
  {
    var t := s[2..];
    var n := SpanLength(t, NotStar);
    assert t[n] == '*' && t[n + 1] == '*';
    assert t == t[..n] + ("**" + t[n + 2..]);
    assert s == "**" + t;
  }

  function Strong(x: string): string { StrongOpen + x + StrongClose }

  function Bold(s: string): (r: string)
    ensures '*' !in s ==> r == s
    decreases |s|
  {
    if s == [] then []
    else match BoldAt(s)
      case Some(m) => Strong(m.group) + Bold(m.rest)
      case None =>
        assert forall c :: c in s[1..] ==> c in s;
        [s[0]] + Bold(s[1..])
  }

  /** `**x**` becomes `<strong>`. */
  lemma BoldWraps(x: string, rest: string)
    requires x != [] && '*' !in x
    ensures Bold("**" + (x + ("**" + rest))) == Strong(x) + Bold(rest)
  {
    var t := x + ("**" + rest);
    assert ("**" + t)[2..] == t;
    BoldAfterMatches(x, rest);
  }

  lemma BoldAfterMatches(x: string, rest: string)
    requires x != [] && '*' !in x
    ensures BoldAfter(x + ("**" + rest)) == Some(Capture(x, rest))
  {
    var t := x + ("**" + rest);
    forall i | 0 <= i < |x| ensures NotStar(t[i]) {
      assert t[i] == x[i];
    }
    SpanLengthIs(t, NotStar, |x|);
    assert t[..|x|] == x && t[|x| + 1] == '*' && t[|x| + 2..] == rest;
  }

  /**
   * A match of `/(?<!\*)\*([^*]+)\*(?!\*)/` at the head of `s`, where
   * `prevStar` says whether the character before `s` in the input is a `*`.
   */
  function ItalicAt(s: string, prevStar: bool): (r: Option<Capture>)
    ensures r.Some? ==> !prevStar && |r.value.group| + |r.value.rest| + 2 == |s|
    ensures r.Some? ==> r.value.group != [] && '*' !in r.value.group
    ensures r.Some? ==> r.value.rest == [] || r.value.rest[0] != '*'
  {
    if prevStar || s == [] || s[0] != '*' then None else ItalicAfter(s[1..])
  }

  /** The rest of an emphasis match once the opening star is read. */
  function ItalicAfter(t: string): (r: Option<Capture>)
    ensures r.Some? ==> |r.value.group| + |r.value.rest| + 1 == |t|
    ensures r.Some? ==> r.value.group != [] && '*' !in r.value.group
    ensures r.Some? ==> r.value.rest == [] || r.value.rest[0] != '*'
  {
    var n := SpanLength(t, NotStar);
    if n == 0 || n == |t| || (n + 1 < |t| && t[n + 1] == '*') then None
    else
      assert forall k :: 0 <= k < n ==> t[..n][k] == t[k];
      Some(Capture(t[..n], t[n + 1..]))
  }

  /** An emphasis match covers exactly its two stars and its group. */
  lemma ItalicAtSound(s: string, prevStar: bool)
    requires ItalicAt(s, prevStar).Some?
    ensures var m := ItalicAt(s, prevStar).value; s == "*" + (m.group + ("*" + m.rest))
  {
    var t := s[1..];
    var n := SpanLength(t, NotStar);
    assert t[n] == '*';
    assert t == t[..n] + ("*" + t[n + 1..]);
    assert s == "*" + t;
  }

  function Emphasis(x: string): string { "<em>" + x + "</em>" }

  function Italic(s: string, prevStar: bool): (r: string)
    ensures '*' !in s ==> r == s
    decreases |s|
  {
    if s == [] then []
    else match ItalicAt(s, prevStar)
      case Some(m) => Emphasis(m.group) + Italic(m.rest, true)
      case None =>
        assert forall c :: c in s[1..] ==> c in s;
        [s[0]] + Italic(s[1..], s[0] == '*')
  }

  /** `*x*` not touching another `*` becomes `<em>`. */
  lemma ItalicWraps(x: string, rest: string)
    requires x != [] && '*' !in x
    requires rest == [] || rest[0] != '*'
    ensures Italic("*" + (x + ("*" + rest)), false) == Emphasis(x) + Italic(rest, true)
  {
    var t := x + ("*" + rest);
    assert ("*" + t)[1..] == t;
    ItalicAfterMatches(x, rest);
  }

  lemma ItalicAfterMatches(x: string, rest: string)
    requires x != [] && '*' !in x
    requires rest == [] || rest[0] != '*'
    ensures ItalicAfter(x + ("*" + rest)) == Some(Capture(x, rest))
  {
    var t := x + ("*" + rest);
    forall i | 0 <= i < |x| ensures NotStar(t[i]) {
      assert t[i] == x[i];
    }
    SpanLengthIs(t, NotStar, |x|);
    assert t[..|x|] == x && t[|x| + 1..] == rest;
  }

  /** A `*` right after a match cannot open another one: `*a**b*` has no emphasis. */
  lemma StarAfterMatchCannotOpen(s: string)
    requires s != [] && s[0] == '*'
    ensures ItalicAt(s, true).None?
  {
  }

  /** Bold runs first, so `**x**` is never read as emphasis. */
  lemma BoldBeforeItalic(x: string)
    requires x != [] && '*' !in x
    ensures Italic(Bold("**" + x + "**"), false) == Strong(x)
  {
    BoldWraps(x, []);
    assert "**" + (x + ("**" + [])) == "**" + x + "**";
    assert Strong(x) + [] == Strong(x);
    assert '*' !in Strong(x) by {
      StrongPlain();
    }
  }

  // ---------------------------------------------------------------------
  // Line breaks and the whole pipeline

  /** `html.replace(/\n/g, '<br />')` */
  function BreakLines(s: string): string
  {
    ReplaceAll(s, "\n", "<br />")
  }

  function BreakChar(c: char): string { if c == '\n' then "<br />" else [c] }

  /** Every newline becomes `<br />`, wherever it is; the rest is kept character by character. */
  lemma BreakLinesPerChar(s: string)
    ensures BreakLines(s) == MapChars(s, BreakChar)
    ensures '\n' !in BreakLines(s)
  {
    MapCharsFixed(s, KeepChar);
    assert forall c :: PieceStep(KeepChar, BreakChar, "\n", "<br />", c);
    ReplaceAllPieces(s, KeepChar, BreakChar, "\n", "<br />");
    MapCharsAvoids(s, BreakChar, '\n');
  }

  function RenderContent(content: string): string
  {
    if content == [] then []
    else
      var escaped := Escape(content);
      var withBlocks := CodeBlocks(escaped);
      var withCode := InlineCode(withBlocks);
      var withLinks := Links(withCode);
      var withBold := Bold(withLinks);
      var withItalic := Italic(withBold, false);
      BreakLines(withItalic)
  }

  /**
   * Empty content renders as the empty string, and the rendered HTML has no
   * newline left: code blocks included, every one became `<br />`.
   */
  lemma RenderedHasNoNewline(content: string)
    ensures content == [] ==> RenderContent(content) == []
    ensures '\n' !in RenderContent(content)
  {
    if content != [] {
      var html := Italic(Bold(Links(InlineCode(CodeBlocks(Escape(content))))), false);
      BreakLinesPerChar(html);
    }
  }

  /** Text without backticks, brackets or stars is only escaped, with its newlines turned into `<br />`. */
  lemma PlainTextRendering(content: string)
    requires '`' !in content && '[' !in content && '*' !in content
    ensures RenderContent(content) == BreakLines(EscapeChars(content))
  {
    if content != [] {
      var e := Escape(content);
      assert '`' !in e && '[' !in e && '*' !in e by {
        EscapeIsPerChar(content);
        MapCharsAvoids(content, EscapeChar, '`');
        MapCharsAvoids(content, EscapeChar, '[');
        MapCharsAvoids(content, EscapeChar, '*');
      }
      RenderAfterBlocks(content, e);
      EscapeIsPerChar(content);
    }
  }

  /** The first closing fence after a body without backticks is the one right after it. */
  lemma FenceClosesAfter(body: string)
    requires '`' !in body
    ensures IndexOf(body + Fence + [], Fence) == Some(|body|)
  {
    var s := body + Fence + [];
    assert s[|body|..|body| + 3] == Fence;
    assert OccursAt(s, Fence, |body|);
    forall j | 0 <= j < |body| ensures !OccursAt(s, Fence, j) {
      assert s[j] == body[j];
      assert s[j..j + 3][0] == s[j];
    }
  }

  /** Escaping leaves the fence, the language and the newline alone. */
  lemma EscapeOfFence(lang: string, code: string)
    requires forall c :: c in lang ==> IsWordChar(c)
    ensures Escape(Fence + lang + "\n" + code + Fence) == Fence + lang + "\n" + EscapeChars(code) + Fence
  {
    var head := Fence + lang + "\n";
    EscapeIsPerChar(head + code + Fence);
    MapCharsAppend(head + code, Fence, EscapeChar);
    MapCharsAppend(head, code, EscapeChar);
    FenceHeadFixed(lang);
    assert MapChars(Fence, EscapeChar) == Fence by {
      MapCharsFixed(Fence, EscapeChar);
    }
  }

  lemma FenceHeadFixed(lang: string)
    requires forall c :: c in lang ==> IsWordChar(c)
    ensures MapChars(Fence + lang + "\n", EscapeChar) == Fence + lang + "\n"
  {
    forall c | c in Fence + lang + "\n" ensures EscapeChar(c) == [c] {
      if c in lang { assert IsWordChar(c); }
    }
    MapCharsFixed(Fence + lang + "\n", EscapeChar);
  }

  /** Un-escaping only adds `&`, `<` and `>`. */
  lemma UnescapeCodeAvoids(e: string, x: char)
    requires x !in e && x != '&' && x != '<' && x != '>'
    ensures x !in UnescapeCode(e)
  {
    ReplaceAllAvoids(e, "&amp;", "&", x);
    ReplaceAllAvoids(ReplaceAll(e, "&amp;", "&"), "&lt;", "<", x);
    ReplaceAllAvoids(ReplaceAll(ReplaceAll(e, "&amp;", "&"), "&lt;", "<"), "&gt;", ">", x);
  }

  lemma BreakLinesAround(a: string, u: string, b: string)
    requires '\n' !in a && '\n' !in b
    ensures BreakLines(a + u + b) == a + BreakLines(u) + b
  {
    BreakLinesPerChar(a + u + b);
    BreakLinesPerChar(u);
    MapCharsAppend(a + u, b, BreakChar);
    MapCharsAppend(a, u, BreakChar);
    MapCharsFixed(a, BreakChar);
    MapCharsFixed(b, BreakChar);
  }

  /**
   * A message that is one fenced block of code without `` ` ``, `[` or `*`
   * renders as one `<pre><code>` holding the escaped code un-escaped again,
   * newlines turned into `<br />`.
   */
  lemma FencedBlockRendering(lang: string, code: string)
    requires forall c :: c in lang ==> IsWordChar(c)
    requires '`' !in code && '[' !in code && '*' !in code
    ensures RenderContent(Fence + lang + "\n" + code + Fence)
         == PreOpen + BreakLines(UnescapeCode(Escape(code))) + PreClose
  {
    var content := Fence + lang + "\n" + code + Fence;
    var u := UnescapeCode(Escape(code));
    FencedBlockCodeBlocks(lang, code);
    EscapedCodeAvoids(code);
    PreWrapperAvoids(u);
    RenderAfterBlocks(content, PreOpen + u + PreClose);
    PreWrapperPlain();
    BreakLinesAround(PreOpen, u, PreClose);
  }

  /** After the code-block pass, HTML without `` ` ``, `[` or `*` only has its newlines replaced. */
  lemma RenderAfterBlocks(content: string, html: string)
    requires content != [] && CodeBlocks(Escape(content)) == html
    requires '`' !in html && '[' !in html && '*' !in html
    ensures RenderContent(content) == BreakLines(html)
  {
  }

  /** The code-block pass turns an escaped lone fenced block into one `<pre><code>`. */
  lemma FencedBlockCodeBlocks(lang: string, code: string)
    requires forall c :: c in lang ==> IsWordChar(c)
    requires '`' !in code
    ensures CodeBlocks(Escape(Fence + lang + "\n" + code + Fence)) == PreOpen + UnescapeCode(Escape(code)) + PreClose
  {
    EscapeIsPerChar(code);
    EscapeOfFence(lang, code);
    MapCharsAvoids(code, EscapeChar, '`');
    CodeBlocksOfFence(lang, EscapeChars(code));
  }

  /** Escaping and un-escaping add no `` ` ``, `[` or `*`. */
  lemma EscapedCodeAvoids(code: string)
    requires '`' !in code && '[' !in code && '*' !in code
    ensures var u := UnescapeCode(Escape(code)); '`' !in u && '[' !in u && '*' !in u
  {
    var e := EscapeChars(code);
    EscapeIsPerChar(code);
    MapCharsAvoids(code, EscapeChar, '`');
    MapCharsAvoids(code, EscapeChar, '[');
    MapCharsAvoids(code, EscapeChar, '*');
    UnescapeCodeAvoids(e, '`');
    UnescapeCodeAvoids(e, '[');
    UnescapeCodeAvoids(e, '*');
  }

  /** Wrapping code free of `` ` ``, `[` and `*` keeps it free of them. */
  lemma PreWrapperAvoids(u: string)
    requires '`' !in u && '[' !in u && '*' !in u
    ensures var html := PreOpen + u + PreClose; '`' !in html && '[' !in html && '*' !in html
  {
    PreWrapperPlain();
  }

  /** A lone fenced block with a body free of backticks becomes one `<pre><code>`. */
  lemma CodeBlocksOfFence(lang: string, e: string)
    requires forall c :: c in lang ==> IsWordChar(c)
    requires '`' !in e
    ensures CodeBlocks(Fence + lang + "\n" + e + Fence) == PreOpen + UnescapeCode(e) + PreClose
  {
    var s := Fence + lang + "\n" + e + Fence;
    assert s == Fence + lang + "\n" + e + Fence + [];
    FenceClosesAfter(e);
    FenceAtMatches(lang, e, []);
    assert CodeBlocks(s) == PreOpen + UnescapeCode(e) + PreClose + CodeBlocks([]);
  }

  /** Raw `<` and `>` in fenced code come back unescaped in the HTML. */
  lemma RawCodeInFencedBlock(lang: string, code: string)
    requires forall c :: c in lang ==> IsWordChar(c)
    requires '`' !in code && '[' !in code && '*' !in code && '&' !in code
    ensures RenderContent(Fence + lang + "\n" + code + Fence) == PreOpen + BreakLines(code) + PreClose
  {
    FencedBlockRendering(lang, code);
    UnescapeCodeRestoresRaw(code);
  }

  /** The text `&lt;` written in a fenced block renders as a raw `<`. */
  lemma EntityTextInFencedBlock(lang: string)
    requires forall c :: c in lang ==> IsWordChar(c)
    ensures RenderContent(Fence + lang + "\n" + "&lt;" + Fence) == PreOpen + "<" + PreClose
  {
    var code := "&lt;";
    assert '`' !in code && '[' !in code && '*' !in code;
    FencedBlockRendering(lang, code);
    UnescapeCodeOfEntityText();
    assert BreakLines("<") == "<" by {
      BreakLinesPerChar("<");
      MapCharsFixed("<", BreakChar);
    }
  }

  /**
   * A message whose fenced block holds an image tag with an event handler
   * renders that tag as live HTML inside the `<pre><code>`.
   */
  lemma LiveTagInFencedBlock()
    ensures RenderContent(Fence + "\n" + LiveTag + Fence) == PreOpen + LiveTag + PreClose
  {
    LiveTagPlain();
    assert Fence + "\n" == Fence + [] + "\n";
    RawCodeInFencedBlock([], LiveTag);
    assert BreakLines(LiveTag) == LiveTag by {
      BreakLinesPerChar(LiveTag);
      MapCharsFixed(LiveTag, BreakChar);
    }
  }

  const LiveTag := "<img src=x " + "onerror=alert(1)>"

  /** No character of the text is one the code-block and inline passes react to, nor `&`. */
  predicate RawText(s: string)
  {
    forall i | 0 <= i < |s| :: !MarkupChar(s[i]) && s[i] != '&'
  }

  lemma LiveTagPlain()
    ensures '`' !in LiveTag && '[' !in LiveTag && '*' !in LiveTag && '&' !in LiveTag && '\n' !in LiveTag
  {
    var head, tail := "<img src=x ", "onerror=alert(1)>";
    assert RawText(head) && RawText(tail);
    forall i | 0 <= i < |LiveTag| ensures !MarkupChar(LiveTag[i]) && LiveTag[i] != '&' {
      if i < |head| { assert LiveTag[i] == head[i]; } else { assert LiveTag[i] == tail[i - |head|]; }
    }
  }

  // ---------------------------------------------------------------------
  // Code blocks that keep their body escaped

  /** The code-block pass with each body left as escaped text. */
  function CodeBlocksKept(s: string): (r: string)
    ensures '`' !in s ==> r == s
    decreases |s|
  {
    if s == [] then []
    else match FenceAt(s)
      case Some(b) =>
        PreOpen + b.body + PreClose + CodeBlocksKept(b.rest)
      case None =>
        assert forall c :: c in s[1..] ==> c in s;
        [s[0]] + CodeBlocksKept(s[1..])
  }

  /** `renderContent` with the code-block pass that keeps bodies escaped. */
  function RenderContentKept(content: string): string
  {
    if content == [] then []
    else
      var escaped := Escape(content);
      var withBlocks := CodeBlocksKept(escaped);
      var withCode := InlineCode(withBlocks);
      var withLinks := Links(withCode);
      var withBold := Bold(withLinks);
      var withItalic := Italic(withBold, false);
      BreakLines(withItalic)
  }

  /**
   * With bodies kept escaped, a lone fenced block shows its code as text: the
   * body holds no `<` or `>` of the code's own, and decoding its entities gives
   * the code back.
   */
  lemma KeptFencedBlockRendering(lang: string, code: string)
    requires forall c :: c in lang ==> IsWordChar(c)
    requires '`' !in code && '[' !in code && '*' !in code
    ensures var body := EscapeChars(code);
            && RenderContentKept(Fence + lang + "\n" + code + Fence) == PreOpen + BreakLines(body) + PreClose
            && '<' !in body && '>' !in body
            && DecodeEntities(body) == code
  {
    var content := Fence + lang + "\n" + code + Fence;
    var e := EscapeChars(code);
    EscapeIsPerChar(code);
    EscapeOfFence(lang, code);
    MapCharsAvoids(code, EscapeChar, '`');
    MapCharsAvoids(code, EscapeChar, '[');
    MapCharsAvoids(code, EscapeChar, '*');
    KeptCodeBlocksOfFence(lang, e);
    PreWrapperAvoids(e);
    KeptAfterBlocks(content, PreOpen + e + PreClose);
    PreWrapperPlain();
    BreakLinesAround(PreOpen, e, PreClose);
    EscapeRemovesAngles(code);
    DecodeEntitiesInvertsEscape(code);
  }

  /** The same message as in `LiveTagInFencedBlock` shows the tag as text. */
  lemma KeptTagIsText()
    ensures var body := EscapeChars(LiveTag);
            && RenderContentKept(Fence + "\n" + LiveTag + Fence) == PreOpen + BreakLines(body) + PreClose
            && '<' !in body && DecodeEntities(body) == LiveTag
  {
    LiveTagPlain();
    assert Fence + "\n" == Fence + [] + "\n";
    KeptFencedBlockRendering([], LiveTag);
  }

  lemma KeptAfterBlocks(content: string, html: string)
    requires content != [] && CodeBlocksKept(Escape(content)) == html
    requires '`' !in html && '[' !in html && '*' !in html
    ensures RenderContentKept(content) == BreakLines(html)
  {
  }

  lemma KeptCodeBlocksOfFence(lang: string, e: string)
    requires forall c :: c in lang ==> IsWordChar(c)
    requires '`' !in e
    ensures CodeBlocksKept(Fence + lang + "\n" + e + Fence) == PreOpen + e + PreClose
  {
    var s := Fence + lang + "\n" + e + Fence;
    assert s == Fence + lang + "\n" + e + Fence + [];
    FenceClosesAfter(e);
    FenceAtMatches(lang, e, []);
    assert CodeBlocksKept(s) == PreOpen + e + PreClose + CodeBlocksKept([]);
  }
}
