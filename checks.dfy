/**
 * `checkLocaleConfig` (source/internal/checks.ts): a warning for each supported locale the
 * locale pattern rejects, then an error if the default locale is not supported. The console
 * is replaced by the sequence of diagnostics the method returns.
 */
module Checks {
  import opened Config

  datatype Diagnostic = PatternMismatch(locale: string) | UnsupportedDefault(locale: string)

  /** The pattern warnings for `locales`, in their order. */
  function MismatchWarnings(locales: seq<string>, test: string -> bool): seq<Diagnostic>
  {
    if locales == [] then []
    else
      var last := locales[|locales| - 1];
      MismatchWarnings(locales[..|locales| - 1], test) + (if test(last) then [] else [PatternMismatch(last)])
  }

  /** Warnings are per locale: those of two runs of locales are those of each run, in order. */
  lemma {:induction false} MismatchWarningsConcat(a: seq<string>, b: seq<string>, test: string -> bool)
    ensures MismatchWarnings(a + b, test) == MismatchWarnings(a, test) + MismatchWarnings(b, test)
    decreases |b|
  {
    if b == [] {
      assert a + b == a;
    } else {
      assert (a + b)[..|a + b| - 1] == a + b[..|b| - 1];
      MismatchWarningsConcat(a, b[..|b| - 1], test);
    }
  }

  /** Exactly the locales that fail the pattern are warned about, and nothing else is emitted. */
  lemma {:induction false} MismatchWarningsMembers(locales: seq<string>, test: string -> bool)
    ensures forall d :: d in MismatchWarnings(locales, test) ==> d.PatternMismatch?
    ensures forall l :: PatternMismatch(l) in MismatchWarnings(locales, test) <==> l in locales && !test(l)
    ensures |MismatchWarnings(locales, test)| <= |locales|
    ensures MismatchWarnings(locales, test) == [] <==> forall l :: l in locales ==> test(l)
    decreases |locales|
  {
    if locales != [] {
      var init := locales[..|locales| - 1];
      MismatchWarningsMembers(init, test);
      assert locales == init + [locales[|locales| - 1]];
    }
    var w := MismatchWarnings(locales, test);
    if w != [] {
      assert w[0] in w;
    }
  }

  /** `checkLocaleConfig`, with `test` standing for `localeConfig.other.localePattern.test`. */
  method CheckLocaleConfig(c: LocaleConfig, test: string -> bool) returns (diags: seq<Diagnostic>)
    ensures diags == MismatchWarnings(c.supported.locales, test) +
      (if c.defaults.locale in c.supported.locales then [] else [UnsupportedDefault(c.defaults.locale)])
    ensures UnsupportedDefault(c.defaults.locale) in diags <==> c.defaults.locale !in c.supported.locales
    ensures forall i :: 0 <= i < |diags| - 1 ==> diags[i].PatternMismatch?
    ensures diags == [] <==> (forall l :: l in c.supported.locales ==> test(l)) && c.defaults.locale in c.supported.locales
  {
    var locales := c.supported.locales;
    diags := [];
    for i := 0 to |locales|
      invariant diags == MismatchWarnings(locales[..i], test)
    {
      assert locales[..i + 1][..i] == locales[..i];
      if !test(locales[i]) {
        diags := diags + [PatternMismatch(locales[i])];
      }
    }
    assert locales[..|locales|] == locales;
    MismatchWarningsMembers(locales, test);
    if c.defaults.locale !in locales {
      diags := diags + [UnsupportedDefault(c.defaults.locale)];
    }
  }

  /** The configuration of source/config.ts draws no diagnostics from a pattern its locale passes. */
  lemma SampleConfigIsClean(test: string -> bool)
    requires test("en-GB")
    ensures MismatchWarnings(SampleConfig.supported.locales, test) == []
    ensures SampleConfig.defaults.locale in SampleConfig.supported.locales
  {
  }
}
