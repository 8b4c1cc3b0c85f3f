/**
 * The fixed HTML the Markdown renderer wraps a fenced code block in, and the
 * fact that this wrapper is invisible to the passes that run after it.
 */
module HtmlMarkup {
  /** The utility classes of a rendered code block, in source order. */
  const PreClasses := ["bg-gray-100", "dark:bg-gray-800", "p-3", "rounded-lg", "my-2", "overflow-x-auto", "text-sm"]

  /** The opening `<pre><code>` of a rendered code block. */
  const PreOpen := "<pre class=\"" + JoinClasses(PreClasses) + "\"><code>"
  const PreClose := "</code></pre>"

  /** A class attribute value: the names separated by single spaces. */
  function JoinClasses(names: seq<string>): string
  {
    if names == [] then []
    else if |names| == 1 then names[0]
    else names[0] + " " + JoinClasses(names[1..])
  }

  /** The tags a bold span is wrapped in. */
  const StrongOpen := "<strong class=\"font-semibold\">"
  const StrongClose := "</strong>"

  /** A backtick, bracket, star or newline: the characters the passes after escaping react to. */
  predicate MarkupChar(c: char)
  {
    c == '`' || c == '[' || c == '*' || c == '\n'
  }

  /** Text every pass after escaping leaves alone. */
  predicate MarkupFree(s: string)
  {
    forall i | 0 <= i < |s| :: !MarkupChar(s[i])
  }

  lemma MarkupFreeAppend(a: string, b: string)
    requires MarkupFree(a) && MarkupFree(b)
    ensures MarkupFree(a + b)
  {
    forall i | 0 <= i < |a + b| ensures !MarkupChar((a + b)[i]) {
      if i < |a| { assert (a + b)[i] == a[i]; } else { assert (a + b)[i] == b[i - |a|]; }
    }
  }

  lemma {:induction false} JoinClassesFree(names: seq<string>)
    requires forall k | 0 <= k < |names| :: MarkupFree(names[k])
    ensures MarkupFree(JoinClasses(names))
  {
    if |names| > 1 {
      JoinClassesFree(names[1..]);
      MarkupFreeAppend(names[0], " ");
      MarkupFreeAppend(names[0] + " ", JoinClasses(names[1..]));
    }
  }

  lemma PreClassesFree()
    ensures forall k | 0 <= k < |PreClasses| :: MarkupFree(PreClasses[k])
  {
  }

  /** The `<pre><code>` wrapper holds no newline and none of the characters the later passes look for. */
  lemma PreWrapperPlain()
    ensures MarkupFree(PreOpen) && MarkupFree(PreClose)
  {
    PreClassesFree();
    JoinClassesFree(PreClasses);
    MarkupFreeAppend("<pre class=\"", JoinClasses(PreClasses));
    MarkupFreeAppend("<pre class=\"" + JoinClasses(PreClasses), "\"><code>");
  }

  /** The `<strong>` tags hold none of the characters the later passes look for. */
  lemma StrongPlain()
    ensures MarkupFree(StrongOpen) && MarkupFree(StrongClose)
  {
  }
}
