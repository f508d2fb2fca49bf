/**
 * The string handling around the trees: `key.split(".")`, which turns a dotted lookup path
 * into segments in both resolvers, and the `{locale}` / `{namespace}` substitution into the
 * configured `dictionaryPath` that names each fragment file the compiler reads.
 */
module Paths {

  /** `s.split(".")`: the pieces between dots, empty ones included, always at least one. */
  function Split(s: string): (r: seq<string>)
    ensures |r| >= 1
    ensures forall i :: 0 <= i < |r| ==> '.' !in r[i]
  {
    if s == [] then [""]
    else if s[0] == '.' then [""] + Split(s[1..])
    else
      var rest := Split(s[1..]);
      [[s[0]] + rest[0]] + rest[1..]
  }

  /** `segments.join(".")`. */
  function Join(segments: seq<string>): string
    requires |segments| >= 1
  {
    if |segments| == 1 then segments[0] else segments[0] + "." + Join(segments[1..])
  }

  /** Splitting loses nothing: joining the pieces gives the key back. */
  lemma {:induction false} JoinSplit(s: string)
    ensures Join(Split(s)) == s
  {
    if s != [] {
      JoinSplit(s[1..]);
      var rest := Split(s[1..]);
      if s[0] != '.' && |rest| > 1 {
        assert Join(rest) == rest[0] + "." + Join(rest[1..]);
        assert ([[s[0]] + rest[0]] + rest[1..])[1..] == rest[1..];
      }
      assert s == [s[0]] + s[1..];
    }
  }

  /** A piece without a dot splits into itself. */
  lemma {:induction false} SplitPlain(s: string)
    requires '.' !in s
    ensures Split(s) == [s]
  {
    if s != [] {
      SplitPlain(s[1..]);
      assert s == [s[0]] + s[1..];
    }
  }

  /** A dot splits a path into the pieces of its two sides. */
  lemma {:induction false} SplitDotted(a: string, b: string)
    ensures Split(a + "." + b) == Split(a) + Split(b)
  {
    if a == [] {
      assert a + "." + b == "." + b;
      assert ("." + b)[1..] == b;
    } else {
      var s := a + "." + b;
      assert s[0] == a[0] && s[1..] == a[1..] + "." + b;
      SplitDotted(a[1..], b);
    }
  }

  /** Pieces without dots survive joining and splitting again. */
  lemma {:induction false} SplitJoin(segments: seq<string>)
    requires |segments| >= 1
    requires forall i :: 0 <= i < |segments| ==> '.' !in segments[i]
    ensures Split(Join(segments)) == segments
  {
    SplitPlain(segments[0]);
    if |segments| > 1 {
      SplitDotted(segments[0], Join(segments[1..]));
      SplitJoin(segments[1..]);
    }
  }

  const LocalePlaceholder := "{locale}"
  const NamespacePlaceholder := "{namespace}"

  /**
   * Every non-overlapping occurrence of `placeholder`, left to right, replaced by `value`;
   * every character of the result comes from the text or from the value.
   */
  function Substitute(s: string, placeholder: string, value: string): (r: string)
    requires placeholder != []
    ensures forall ch :: ch in r ==> ch in s || ch in value
    decreases |s|
  {
    if |s| < |placeholder| then s
    else if s[..|placeholder|] == placeholder then value + Substitute(s[|placeholder|..], placeholder, value)
    else [s[0]] + Substitute(s[1..], placeholder, value)
  }

  /**
   * The file of one (locale, namespace) pair: `replaceMultiple(dictionaryPath, ...)`. Its
   * characters come from the template, the locale and the namespace.
   */
  function FragmentPath(template: string, locale: string, namespace: string): (r: string)
    ensures forall ch :: ch in r ==> ch in template || ch in locale || ch in namespace
  {
    Substitute(Substitute(template, LocalePlaceholder, locale), NamespacePlaceholder, namespace)
  }

  predicate BraceFree(s: string)
  {
    '{' !in s
  }

  /** Text that cannot start a placeholder is copied through. */
  lemma {:induction false} SubstitutePlain(a: string, rest: string, placeholder: string, value: string)
    requires placeholder != [] && placeholder[0] !in a
    ensures Substitute(a + rest, placeholder, value) == a + Substitute(rest, placeholder, value)
    decreases |a|
  {
    if a == [] {
      assert a + rest == rest;
    } else {
      var s := a + rest;
      if |s| < |placeholder| {
        assert s == a + rest;
      } else {
        assert s[..|placeholder|][0] == a[0];
        assert s[1..] == a[1..] + rest;
        SubstitutePlain(a[1..], rest, placeholder, value);
      }
    }
  }

  /** A placeholder at the front is replaced. */
  lemma SubstituteHead(placeholder: string, rest: string, value: string)
    requires placeholder != []
    ensures Substitute(placeholder + rest, placeholder, value) == value + Substitute(rest, placeholder, value)
  {
    var s := placeholder + rest;
    assert s[..|placeholder|] == placeholder && s[|placeholder|..] == rest;
  }

  /** Text without a brace is left alone. */
  lemma SubstituteNone(s: string, placeholder: string, value: string)
    requires placeholder != [] && placeholder[0] == '{' && BraceFree(s)
    ensures Substitute(s, placeholder, value) == s
  {
    SubstitutePlain(s, [], placeholder, value);
    assert s + [] == s;
  }

  /** The locale pass leaves a `{namespace}` placeholder and brace-free text after it alone. */
  lemma NamespacePlaceholderKept(c: string, locale: string)
    requires BraceFree(c)
    ensures Substitute(NamespacePlaceholder + c, LocalePlaceholder, locale) == NamespacePlaceholder + c
  {
    var lp, np := LocalePlaceholder, NamespacePlaceholder;
    var s := np + c;
    var tail := s[1..];
    assert tail == "namespace}" + c;
    assert BraceFree(tail);
    assert s[..|lp|] != lp by { assert s[1] == 'n' && lp[1] == 'l'; }
    assert s == [s[0]] + tail;
    SubstituteNone(tail, lp, locale);
  }

  /** A first pass over `a p b q c` that replaces `p` and leaves `q c` alone. */
  lemma FirstPass(a: string, b: string, rest: string, p: string, value: string)
    requires p != [] && p[0] == '{' && BraceFree(a) && BraceFree(b)
    requires Substitute(rest, p, value) == rest
    ensures Substitute(a + p + b + rest, p, value) == (a + value + b) + rest
  {
    SubstitutePlain(b, rest, p, value);
    SubstituteHead(p, b + rest, value);
    SubstitutePlain(a, p + (b + rest), p, value);
    assert a + p + b + rest == a + (p + (b + rest));
    assert a + (value + (b + rest)) == (a + value + b) + rest;
  }

  /** The locale pass over `a{locale}b{namespace}c`. */
  lemma LocalePass(a: string, b: string, c: string, locale: string)
    requires BraceFree(a) && BraceFree(b) && BraceFree(c)
    ensures Substitute(a + LocalePlaceholder + b + NamespacePlaceholder + c, LocalePlaceholder, locale)
            == (a + locale + b) + (NamespacePlaceholder + c)
  {
    NamespacePlaceholderKept(c, locale);
    FirstPass(a, b, NamespacePlaceholder + c, LocalePlaceholder, locale);
    assert a + LocalePlaceholder + b + NamespacePlaceholder + c == a + LocalePlaceholder + b + (NamespacePlaceholder + c);
  }

  /** The namespace pass over `f{namespace}c`. */
  lemma NamespacePass(front: string, c: string, namespace: string)
    requires BraceFree(front) && BraceFree(c)
    ensures Substitute(front + (NamespacePlaceholder + c), NamespacePlaceholder, namespace) == front + namespace + c
  {
    var np := NamespacePlaceholder;
    SubstituteNone(c, np, namespace);
    SubstituteHead(np, c, namespace);
    SubstitutePlain(front, np + c, np, namespace);
  }

  /**
   * For a template of the form `a{locale}b{namespace}c`, the fragment path is `a`, the locale,
   * `b`, the namespace and `c`, when none of these contains a brace.
   */
  lemma FragmentPathShape(a: string, b: string, c: string, locale: string, namespace: string)
    requires BraceFree(a) && BraceFree(b) && BraceFree(c) && BraceFree(locale) && BraceFree(namespace)
    ensures FragmentPath(a + LocalePlaceholder + b + NamespacePlaceholder + c, locale, namespace)
            == a + locale + b + namespace + c
  {
    LocalePass(a, b, c, locale);
    assert BraceFree(a + locale + b);
    NamespacePass(a + locale + b, c, namespace);
  }
}
