/**
 * The memoising translator of source/internal/dedupTranslations.ts. `generateLocDedup(t)`
 * is a generator that alternately waits for a key and holds that key's answer; it calls `t`
 * only for keys it has not seen and remembers each answer in `previousKeys` and
 * `previousAnswers`. The generator object is the class below; `next` is the method `Next`.
 */
module Dedup {
  import opened Wrappers
  import opened Resolver

  /** Where the generator is suspended: before its body, at `yield` for a key, or at an answer. */
  datatype Phase = NotStarted | AwaitingKey | Holding(answer: Translated)

  class LocDedup {
    /** The translation function the generator was created with. */
    const t: TFunction
    /** `previousKeys`. */
    var keys: set<string>
    /** `previousAnswers`. */
    var answers: map<string, Translated>
    var phase: Phase
    /** The keys `t` has been applied to, in order. */
    ghost var calls: seq<string>

    /**
     * The key set and the answer map have the same domain, every stored answer is `t`'s
     * answer for its key, and `t` was applied once to each stored key and to nothing else.
     */
    ghost predicate Valid()
      reads this
    {
      && keys == answers.Keys
      && (forall k :: k in answers ==> answers[k] == t(k, None, None))
      && (forall k :: k in keys <==> k in calls)
      && (forall i, j :: 0 <= i < j < |calls| ==> calls[i] != calls[j])
    }

    /** `generateLocDedup(t)`: nothing runs until the first `next`. */
    constructor (t: TFunction)
      ensures Valid()
      ensures this.t == t && keys == {} && answers == map[] && phase == NotStarted && calls == []
    {
      this.t := t;
      keys, answers, phase := {}, map[], NotStarted;
      calls := [];
    }

    /**
     * `next(input)`. While waiting for a key it answers that key, from the cache when the key
     * was seen before and by calling `t` otherwise; in any other phase it ignores its input,
     * moves on to waiting for a key and yields nothing. A cached answer is the stored value, so
     * its `log` tag describes the first call's console output: a repeat logs nothing.
     */
    method Next(input: Option<string>) returns (output: Option<Translated>)
      requires Valid()
      requires phase.AwaitingKey? ==> input.Some?
      modifies this
      ensures Valid()
      ensures old(phase).AwaitingKey? ==>
        && output == Some(t(input.value, None, None))
        && phase == Holding(output.value)
        && keys == old(keys) + {input.value}
        && answers == old(answers)[input.value := output.value]
        && (input.value in old(keys) ==> output == Some(old(answers)[input.value]) && calls == old(calls))
        && (input.value !in old(keys) ==> calls == old(calls) + [input.value])
      ensures !old(phase).AwaitingKey? ==>
        output == None && phase == AwaitingKey && keys == old(keys) && answers == old(answers) && calls == old(calls)
    {
      if phase.AwaitingKey? {
        var key := input.value;
        var answer: Translated;
        if key in keys {
          answer := answers[key];
        } else {
          answer := t(key, None, None);
          keys := keys + {key};
          answers := answers[key := answer];
          calls := calls + [key];
        }
        phase := Holding(answer);
        output := Some(answer);
      } else {
        phase := AwaitingKey;
        output := None;
      }
    }

    /**
     * `dedupTranslationNow(iter, key)`, and so each call of the function `iterToTranslator`
     * returns: one wait-for-key, answer cycle. The answer is `t`'s answer for the key; the cache
     * grows by at most that key and keeps every answer it held; `t` runs only for a new key.
     */
    method DedupTranslationNow(key: string) returns (answer: Translated)
      requires Valid() && !phase.AwaitingKey?
      modifies this
      ensures Valid()
      ensures answer == t(key, None, None)
      ensures phase == Holding(answer)
      ensures keys == old(keys) + {key}
      ensures answers == old(answers)[key := answer]
      ensures forall k :: k in old(answers) ==> k in answers && answers[k] == old(answers)[k]
      ensures key in old(keys) ==> answer == old(answers)[key] && calls == old(calls)
      ensures key !in old(keys) ==> calls == old(calls) + [key]
    {
      var ignored := Next(None);
      var output := Next(Some(key));
      answer := output.value;
    }
  }

  /** Asking twice for the same key gives the same answer, and `t` runs at most once for it. */
  method AskTwice(dedup: LocDedup, key: string) returns (first: Translated, second: Translated)
    requires dedup.Valid() && !dedup.phase.AwaitingKey?
    modifies dedup
    ensures dedup.Valid()
    ensures first == second == dedup.t(key, None, None)
    ensures dedup.calls == old(dedup.calls) || dedup.calls == old(dedup.calls) + [key]
    ensures key in dedup.keys
  {
    first := dedup.DedupTranslationNow(key);
    second := dedup.DedupTranslationNow(key);
  }
}
