/**
 * `build_defs`: the loop over the word list that fills the word -> definition
 * map.  The three HTTP requests for a term are an oracle `net` from the term
 * to the replies it gets; the files read and written are values.
 */
module Pipeline {
  import opened Wrappers
  import opened Text
  import opened Whitespace
  import opened Fetchers
  import opened PostFix

  /** An element of the input JSON array: a string, or any other JSON value. */
  datatype Item = Str(s: string) | NotStr

  /** The decoded input file: an array, or some other JSON value. */
  datatype WordList = Array(items: seq<Item>) | NotArray

  /** The replies the requests for one term get. */
  datatype Replies = Replies(parse: ParseReply, extracts: ExtractReply, summary: SummaryReply)

  /** A write of the output file: a checkpoint after element `index`, or the final write. */
  datatype Write = Checkpoint(index: nat, contents: map<string, string>) | Final(contents: map<string, string>)

  /** What `build_defs` returns, or the `ValueError` it raises on a non-array input. */
  datatype Outcome = Built(defs: map<string, string>, updated: nat, writes: seq<Write>) | InputNotArray

  /**
   * The inputs of one run: the word list, the map it starts from, the value
   * a looked-up term gets (`Lookups(net)` for a network `net`) and `save_every`.
   */
  datatype Job = Job(items: seq<Item>, seed: map<string, string>, lookup: string -> string, saveEvery: int)

  /** The loop's variables: `out`, `updated`, and the file writes so far. */
  datatype State = State(out: map<string, string>, updated: nat, writes: seq<Write>)

  /** Python's truth test on an `Optional[str]`. */
  predicate Truthy(d: Option<string>) {
    d.Some? && d.value != ""
  }

  /**
   * The value stored for a term that is looked up: the Wiktionary
   * definition, else the Wikipedia one, post-fixed; `""` when neither gives
   * anything.
   */
  function Resolve(r: Replies): string {
    var w := Wiktionary(r.parse, r.extracts);
    var d := if Truthy(w) then w else Wikipedia(r.summary);
    var d' := if Truthy(d) then Some(Fix(d.value)) else d;
    if Truthy(d') then d'.value else ""
  }

  /** What each term resolves to on the network `net`. */
  function Lookups(net: string -> Replies): string -> string {
    t => Resolve(net(t))
  }

  /** `existing`: the old output when appending and it could be read, else empty. */
  function Seed(append: bool, stored: Option<map<string, string>>): map<string, string> {
    if append && stored.Some? then stored.value else map[]
  }

  /** The element is a non-empty string, so the loop does not skip it at once. */
  predicate IsCandidate(item: Item) {
    item.Str? && item.s != ""
  }

  /** The loop looks element `item` up in state `st`: its key has no non-empty value yet. */
  predicate LooksUp(st: State, item: Item) {
    IsCandidate(item) && !(Strip(item.s) in st.out && st.out[Strip(item.s)] != "")
  }

  /** `save_every and (idx + 1) % save_every == 0`; Python's `%` and Dafny's agree on divisibility. */
  predicate SaveAt(saveEvery: int, idx: nat) {
    saveEvery != 0 && (idx + 1) % saveEvery == 0
  }

  /** One iteration of the loop, on element `idx`. */
  function Step(job: Job, st: State, idx: nat, item: Item): State {
    if !LooksUp(st, item) then st
    else
      var term := Strip(item.s);
      var v := job.lookup(term);
      var out := st.out[term := v];
      var updated := if v != "" then st.updated + 1 else st.updated;
      var writes := if SaveAt(job.saveEvery, idx) then st.writes + [Checkpoint(idx, out)] else st.writes;
      State(out, updated, writes)
  }

  /**
   * One iteration: a non-empty string gets an entry under its stripped
   * form, a non-empty value is never replaced, `updated` grows by one
   * exactly when a key goes from missing or empty to non-empty, and at most
   * one checkpoint is appended to the writes.
   */
  lemma StepEffect(job: Job, st: State, idx: nat, item: Item)
    ensures var r := Step(job, st, idx, item);
            r.out.Keys == st.out.Keys + (if IsCandidate(item) then {Strip(item.s)} else {})
    ensures var r := Step(job, st, idx, item);
            forall k :: k in st.out && st.out[k] != "" ==> r.out[k] == st.out[k]
    ensures var r := Step(job, st, idx, item);
            r.updated == st.updated + 1 <==>
              IsCandidate(item) && (Strip(item.s) !in st.out || st.out[Strip(item.s)] == "")
              && r.out[Strip(item.s)] != ""
    ensures var r := Step(job, st, idx, item); r.updated == st.updated || r.updated == st.updated + 1
    ensures var r := Step(job, st, idx, item);
            |st.writes| <= |r.writes| <= |st.writes| + 1 && r.writes[..|st.writes|] == st.writes
  {
  }

  /** The state after the first `n` elements. */
  function Run(job: Job, n: nat): State
    requires n <= |job.items|
  {
    if n == 0 then State(job.seed, 0, [])
    else Step(job, Run(job, n - 1), n - 1, job.items[n - 1])
  }

  /**
   * The body of the loop from the Wiktionary request to the post-fix: the
   * definition is rebound at each stage, and a falsy one ends as `""`.
   */
  method LookUp(replies: Replies) returns (definition: Option<string>)
    ensures Truthy(definition) <==> Resolve(replies) != ""
    ensures Truthy(definition) ==> definition.value == Resolve(replies)
  {
    definition := Wiktionary(replies.parse, replies.extracts);
    if !Truthy(definition) {
      definition := Wikipedia(replies.summary);
    }
    if Truthy(definition) {
      definition := Some(Fix(definition.value));
    }
  }

  /** `build_defs`, with the files and the network given as values. */
  method BuildDefs(words: WordList, stored: Option<map<string, string>>, append: bool,
                   net: string -> Replies, saveEvery: int) returns (r: Outcome)
    ensures words.NotArray? ==> r == InputNotArray
    ensures words.Array? ==>
              var job := Job(words.items, Seed(append, stored), Lookups(net), saveEvery);
              var st := Run(job, |words.items|);
              r == Built(st.out, st.updated, st.writes + [Final(st.out)])
  {
    if words.NotArray? {
      return InputNotArray;
    }
    var items := words.items;
    var existing := Seed(append, stored);
    ghost var job := Job(items, existing, Lookups(net), saveEvery);
    var out := existing;
    var updated := 0;
    var writes: seq<Write> := [];
    for idx := 0 to |items|
      invariant State(out, updated, writes) == Run(job, idx)
    {
      var item := items[idx];
      if !item.Str? || item.s == "" {
        continue;
      }
      var term := Strip(item.s);
      if term in out && out[term] != "" {
        continue;
      }
      var definition := LookUp(net(term));
      assert job.lookup(term) == Resolve(net(term));
      ghost var st := Run(job, idx);
      assert Run(job, idx + 1) == Step(job, st, idx, item);
      if Truthy(definition) {
        out := out[term := definition.value];
        updated := updated + 1;
      } else {
        out := out[term := ""];
      }
      if saveEvery != 0 && (idx + 1) % saveEvery == 0 {
        writes := writes + [Checkpoint(idx, out)];
      }
    }
    writes := writes + [Final(out)];
    return Built(out, updated, writes);
  }

  // ---------------------------------------------------------------------
  // What a run does to the map.

  /** The keys of the non-empty string elements among the first `n`. */
  function Terms(items: seq<Item>, n: nat): set<string>
    requires n <= |items|
  {
    if n == 0 then {}
    else
      var item := items[n - 1];
      Terms(items, n - 1) + (if IsCandidate(item) then {Strip(item.s)} else {})
  }

  /** `Terms` holds the stripped form of every non-empty string among the first `n` elements. */
  lemma {:induction false} TermsInclude(items: seq<Item>, n: nat)
    requires n <= |items|
    ensures forall i :: 0 <= i < n && IsCandidate(items[i]) ==> Strip(items[i].s) in Terms(items, n)
  {
    if n > 0 {
      TermsInclude(items, n - 1);
    }
  }

  /** `Terms` holds nothing but those stripped strings. */
  lemma {:induction false} TermsOnly(items: seq<Item>, n: nat, t: string)
    requires n <= |items|
    requires t in Terms(items, n)
    ensures exists i :: 0 <= i < n && IsCandidate(items[i]) && t == Strip(items[i].s)
  {
    var item := items[n - 1];
    if IsCandidate(item) && t == Strip(item.s) {
      assert 0 <= n - 1 < n && IsCandidate(items[n - 1]) && t == Strip(items[n - 1].s);
    } else {
      TermsOnly(items, n - 1, t);
    }
  }

  /** The output keys are the existing keys together with the keys of the processed strings. */
  lemma {:induction false} RunKeys(job: Job, n: nat)
    requires n <= |job.items|
    ensures Run(job, n).out.Keys == job.seed.Keys + Terms(job.items, n)
  {
    if n > 0 {
      RunKeys(job, n - 1);
    }
  }

  /** An entry that already has a non-empty value is never changed. */
  lemma {:induction false} NonEmptyKept(job: Job, n: nat)
    requires n <= |job.items|
    ensures forall k :: k in job.seed && job.seed[k] != "" ==> k in Run(job, n).out && Run(job, n).out[k] == job.seed[k]
  {
    if n > 0 {
      NonEmptyKept(job, n - 1);
    }
  }

  /** A key no processed string maps to keeps its existing value. */
  lemma {:induction false} OthersKept(job: Job, n: nat)
    requires n <= |job.items|
    ensures forall k :: k in Run(job, n).out && k !in Terms(job.items, n) ==> k in job.seed && Run(job, n).out[k] == job.seed[k]
  {
    if n > 0 {
      OthersKept(job, n - 1);
    }
  }

  /** The final value of a key: a non-empty existing value, or what the lookup resolves to. */
  function Expected(job: Job, k: string): string {
    if k in job.seed && job.seed[k] != "" then job.seed[k] else job.lookup(k)
  }

  /** Every processed key ends with its non-empty existing value or with what its lookup gives. */
  lemma {:induction false} ProcessedValues(job: Job, n: nat)
    requires n <= |job.items|
    ensures forall k :: k in Terms(job.items, n) ==> k in Run(job, n).out && Run(job, n).out[k] == Expected(job, k)
  {
    if n > 0 {
      ProcessedValues(job, n - 1);
      RunKeys(job, n);
      NonEmptyKept(job, n - 1);
      OthersKept(job, n - 1);
    }
  }

  /** The keys with a non-empty value. */
  function Filled(m: map<string, string>): set<string> {
    set k | k in m && m[k] != ""
  }

  lemma FilledAdd(m: map<string, string>, t: string, v: string)
    requires t !in Filled(m)
    ensures v != "" ==> Filled(m[t := v]) == Filled(m) + {t}
    ensures v == "" ==> Filled(m[t := v]) == Filled(m)
  {
  }

  /** `updated` counts exactly the keys that went from missing or empty to non-empty. */
  lemma {:induction false} UpdatedCounts(job: Job, n: nat)
    requires n <= |job.items|
    ensures |Filled(Run(job, n).out)| == |Filled(job.seed)| + Run(job, n).updated
  {
    if n > 0 {
      UpdatedCounts(job, n - 1);
      var st := Run(job, n - 1);
      var item := job.items[n - 1];
      if LooksUp(st, item) {
        var term := Strip(item.s);
        FilledAdd(st.out, term, job.lookup(term));
      }
    }
  }

  // ---------------------------------------------------------------------
  // The checkpoints.

  /** Element `i` is looked up and is followed by a checkpoint. */
  predicate Saves(job: Job, i: nat)
    requires i < |job.items|
  {
    LooksUp(Run(job, i), job.items[i]) && SaveAt(job.saveEvery, i)
  }

  /**
   * Every write during the loop is a checkpoint after an element `i` that
   * was looked up with `(i + 1) % save_every == 0`, holding the map as it is
   * after that element.
   */
  lemma {:induction false} CheckpointsSound(job: Job, n: nat)
    requires n <= |job.items|
    ensures forall w :: w in Run(job, n).writes ==>
              w.Checkpoint? && w.index < n && Saves(job, w.index) && w.contents == Run(job, w.index + 1).out
  {
    if n > 0 {
      CheckpointsSound(job, n - 1);
    }
  }

  /** Every element looked up with `(i + 1) % save_every == 0` is followed by its checkpoint. */
  lemma {:induction false} CheckpointsComplete(job: Job, n: nat)
    requires n <= |job.items|
    ensures forall i :: 0 <= i < n && Saves(job, i) ==> Checkpoint(i, Run(job, i + 1).out) in Run(job, n).writes
  {
    if n > 0 {
      var prev := Run(job, n - 1).writes;
      var now := Run(job, n).writes;
      assert forall w :: w in prev ==> w in now by {
        StepEffect(job, Run(job, n - 1), n - 1, job.items[n - 1]);
        assert prev == now[..|prev|];
      }
      forall i | 0 <= i < n && Saves(job, i)
        ensures Checkpoint(i, Run(job, i + 1).out) in now
      {
        if i < n - 1 {
          CheckpointsComplete(job, n - 1);
        } else {
          SavedStep(job, n);
        }
      }
    }
  }

  /** After an element that saves, the writes end with its checkpoint. */
  lemma SavedStep(job: Job, n: nat)
    requires 0 < n <= |job.items| && Saves(job, n - 1)
    ensures Run(job, n).writes == Run(job, n - 1).writes + [Checkpoint(n - 1, Run(job, n).out)]
  {
    var st := Run(job, n - 1);
    assert Run(job, n) == Step(job, st, n - 1, job.items[n - 1]);
  }

  /** The checkpoints are written in the order of the elements. */
  lemma {:induction false} CheckpointsOrdered(job: Job, n: nat)
    requires n <= |job.items|
    ensures forall w :: w in Run(job, n).writes ==> w.Checkpoint? && w.index < n
    ensures forall j, k :: 0 <= j < k < |Run(job, n).writes| ==> Run(job, n).writes[j].index < Run(job, n).writes[k].index
  {
    if n > 0 {
      CheckpointsOrdered(job, n - 1);
    }
  }

  // ---------------------------------------------------------------------
  // Particular cases.

  /** Every non-empty string of the input has an entry under its stripped form. */
  lemma EveryTermHasEntry(job: Job)
    ensures forall i :: 0 <= i < |job.items| && IsCandidate(job.items[i]) ==> Strip(job.items[i].s) in Run(job, |job.items|).out
  {
    RunKeys(job, |job.items|);
    TermsInclude(job.items, |job.items|);
  }

  /** A string of whitespace only is not skipped: it is processed under the key `""`. */
  lemma BlankWordKey(job: Job, i: nat)
    requires i < |job.items|
    requires job.items[i].Str? && job.items[i].s != []
    requires forall k :: 0 <= k < |job.items[i].s| ==> IsSpace(job.items[i].s[k])
    ensures "" in Run(job, |job.items|).out
  {
    EveryTermHasEntry(job);
    var s := job.items[i].s;
    assert Strip(s) == [];
  }

  /**
   * A second run over the same words, appending to the map the first run
   * wrote, with the same replies, gives that map back unchanged.
   */
  lemma RerunIdempotent(job: Job)
    ensures var first := Run(job, |job.items|).out;
            Run(Job(job.items, first, job.lookup, job.saveEvery), |job.items|).out == first
  {
    var n := |job.items|;
    var first := Run(job, n).out;
    var job2 := Job(job.items, first, job.lookup, job.saveEvery);
    var second := Run(job2, n).out;
    RunKeys(job, n);
    RunKeys(job2, n);
    ProcessedValues(job, n);
    ProcessedValues(job2, n);
    OthersKept(job2, n);
    assert second.Keys == first.Keys;
    forall k | k in second
      ensures second[k] == first[k]
    {
      if k in Terms(job.items, n) {
        assert first[k] == Expected(job, k);
        assert second[k] == Expected(job2, k);
      }
    }
  }

  /** Every value the lookup stores is trimmed text with single spaces between words. */
  lemma ResolveNormalized(r: Replies)
    ensures IsNormalized(Resolve(r))
  {
    var w := Wiktionary(r.parse, r.extracts);
    var d := if Truthy(w) then w else Wikipedia(r.summary);
    if Truthy(d) {
      FixNormalized(d.value);
    }
  }

  /**
   * Every value in the map after the run is one it started with or a
   * definition that is trimmed with single spaces between words.
   */
  lemma RunValuesNormalized(items: seq<Item>, seed: map<string, string>, net: string -> Replies, saveEvery: int, n: nat)
    requires n <= |items|
    ensures var out := Run(Job(items, seed, Lookups(net), saveEvery), n).out;
            forall k :: k in out ==> (k in seed && out[k] == seed[k]) || IsNormalized(out[k])
  {
    var job := Job(items, seed, Lookups(net), saveEvery);
    var out := Run(job, n).out;
    ProcessedValues(job, n);
    OthersKept(job, n);
    forall k | k in out && !(k in seed && out[k] == seed[k])
      ensures IsNormalized(out[k])
    {
      assert out[k] == Resolve(net(k));
      ResolveNormalized(net(k));
    }
  }
}
