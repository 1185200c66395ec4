/**
 * `select_datasets`: rounds of per-entry questions followed by a confirmation,
 * driven by the operator's responses in the order they are typed.
 */
module Selection {
  import opened Catalog
  import opened Prompt

  /** One selected entry: its catalog name and its 1-based menu number. */
  datatype Choice = Choice(name: string, index: nat)

  /**
   * How selection ends: a confirmed plan, a refusal (the script's None), or
   * the responses running out before a question was answered (input()
   * raising EOFError, which nothing in the script catches).
   */
  datatype Selection = Chosen(plan: seq<Choice>) | Declined | InputEnded

  /** The entries picked when the first `k` catalog questions got `answers`. */
  function Picks(cat: seq<Descriptor>, answers: seq<string>, k: nat): seq<Choice>
    requires k <= |answers| && k <= |cat|
  {
    if k == 0 then []
    else
      Picks(cat, answers, k - 1)
      + (if YesOrNo(answers[k - 1], cat[k - 1].recommended)
         then [Choice(cat[k - 1].name, k)] else [])
  }

  /** The outcome of selection for a whole stream of responses. */
  function Select(cat: seq<Descriptor>, responses: seq<string>): Selection
    decreases |responses|
  {
    var n := |cat|;
    if |responses| <= n then InputEnded
    else if YesOrNo(responses[n], true) then Chosen(Picks(cat, responses[..n], n))
    else if |responses| == n + 1 then InputEnded
    else if YesOrNo(responses[n + 1], true) then Select(cat, responses[n + 2..])
    else Declined
  }

  /** A plan as a dictionary from names to menu numbers: catalog names, in catalog order, numbered by position. */
  predicate WellNumbered(cat: seq<Descriptor>, plan: seq<Choice>) {
    && (forall j :: 0 <= j < |plan| ==>
          1 <= plan[j].index <= |cat| && cat[plan[j].index - 1].name == plan[j].name)
    && (forall j, j' :: 0 <= j < j' < |plan| ==> plan[j].index < plan[j'].index)
  }

  /** Picks are well numbered and all come from the first `k` entries. */
  lemma {:induction false} PicksWellNumbered(cat: seq<Descriptor>, answers: seq<string>, k: nat)
    requires k <= |answers| && k <= |cat|
    ensures WellNumbered(cat, Picks(cat, answers, k))
    ensures forall c :: c in Picks(cat, answers, k) ==> c.index <= k
  {
    if k > 0 {
      PicksWellNumbered(cat, answers, k - 1);
      var p := Picks(cat, answers, k - 1);
      var d := cat[k - 1];
      if YesOrNo(answers[k - 1], d.recommended) {
        var q := p + [Choice(d.name, k)];
        assert Picks(cat, answers, k) == q;
        forall j | 0 <= j < |q|
          ensures 1 <= q[j].index <= k && cat[q[j].index - 1].name == q[j].name
        {
          if j < |p| {
            assert q[j] == p[j] && p[j] in p;
          }
        }
        forall j, j' | 0 <= j < j' < |q| ensures q[j].index < q[j'].index {
          assert q[j] == p[j] && p[j] in p;
        }
      }
    }
  }

  /** Entry `i` is picked exactly when its own question was answered affirmatively. */
  lemma {:induction false} PicksExactly(cat: seq<Descriptor>, answers: seq<string>, k: nat, i: nat)
    requires k <= |answers| && k <= |cat| && i < |cat|
    ensures Choice(cat[i].name, i + 1) in Picks(cat, answers, k)
        <==> i < k && YesOrNo(answers[i], cat[i].recommended)
  {
    if k > 0 {
      PicksExactly(cat, answers, k - 1, i);
      PicksWellNumbered(cat, answers, k - 1);
    }
  }

  /** Pressing Enter at every question selects precisely the recommended entries. */
  lemma {:induction false} DefaultsPickRecommended(cat: seq<Descriptor>, answers: seq<string>, k: nat, i: nat)
    requires k <= |answers| && k <= |cat| && i < k
    requires forall j :: 0 <= j < k ==> answers[j] == []
    ensures Choice(cat[i].name, i + 1) in Picks(cat, answers, k) <==> cat[i].recommended
  {
    PicksExactly(cat, answers, k, i);
  }

  /** Whatever the responses, a confirmed plan is well numbered. */
  lemma {:induction false} SelectWellNumbered(cat: seq<Descriptor>, responses: seq<string>)
    ensures Select(cat, responses).Chosen? ==> WellNumbered(cat, Select(cat, responses).plan)
    decreases |responses|
  {
    var n := |cat|;
    if |responses| > n + 1 && !YesOrNo(responses[n], true) && YesOrNo(responses[n + 1], true) {
      SelectWellNumbered(cat, responses[n + 2..]);
    } else if |responses| > n {
      PicksWellNumbered(cat, responses[..n], n);
    }
  }

  /** Where round `r` of questions starts in the response stream. */
  function RoundStart(cat: seq<Descriptor>, r: nat): nat {
    if r == 0 then 0 else RoundStart(cat, r - 1) + |cat| + 2
  }

  /** Round `q` ended with "not ok" followed by "change the selection". */
  predicate RetriedAt(cat: seq<Descriptor>, responses: seq<string>, q: nat) {
    var s := RoundStart(cat, q) + |cat|;
    s + 1 < |responses| && !YesOrNo(responses[s], true) && YesOrNo(responses[s + 1], true)
  }

  /** Rounds before `r` were retried and round `r` ended with "not ok" and "do not change". */
  ghost predicate DeclinesIn(cat: seq<Descriptor>, responses: seq<string>, r: nat) {
    var s := RoundStart(cat, r) + |cat|;
    && (forall q: nat :: q < r ==> RetriedAt(cat, responses, q))
    && s + 1 < |responses| && !YesOrNo(responses[s], true) && !YesOrNo(responses[s + 1], true)
  }

  lemma DeclinesInShift(cat: seq<Descriptor>, responses: seq<string>, r: nat)
    requires RetriedAt(cat, responses, 0)
    ensures DeclinesIn(cat, responses[|cat| + 2..], r) <==> DeclinesIn(cat, responses, r + 1)
  {
    var rest := responses[|cat| + 2..];
    forall q: nat
      ensures RetriedAt(cat, rest, q) <==> RetriedAt(cat, responses, q + 1)
    {
      assert RoundStart(cat, q + 1) == RoundStart(cat, q) + |cat| + 2;
    }
    assert RoundStart(cat, r + 1) == RoundStart(cat, r) + |cat| + 2;
    if DeclinesIn(cat, responses, r + 1) {
      forall q: nat | q < r ensures RetriedAt(cat, rest, q) {
        assert RetriedAt(cat, responses, q + 1);
      }
    }
    if DeclinesIn(cat, rest, r) {
      forall q: nat | q < r + 1 ensures RetriedAt(cat, responses, q) {
        if q > 0 { assert RetriedAt(cat, rest, q - 1); }
      }
    }
  }

  lemma {:induction false} DeclinedHasRound(cat: seq<Descriptor>, responses: seq<string>)
    requires Select(cat, responses) == Declined
    ensures exists r :: DeclinesIn(cat, responses, r)
    decreases |responses|
  {
    if RetriedAt(cat, responses, 0) {
      DeclinedHasRound(cat, responses[|cat| + 2..]);
      var r :| DeclinesIn(cat, responses[|cat| + 2..], r);
      DeclinesInShift(cat, responses, r);
    } else {
      assert DeclinesIn(cat, responses, 0);
    }
  }

  lemma {:induction false} RoundDeclines(cat: seq<Descriptor>, responses: seq<string>, r: nat)
    requires DeclinesIn(cat, responses, r)
    ensures Select(cat, responses) == Declined
    decreases r
  {
    if r > 0 {
      assert RetriedAt(cat, responses, 0);
      DeclinesInShift(cat, responses, r - 1);
      RoundDeclines(cat, responses[|cat| + 2..], r - 1);
    }
  }

  /**
   * None comes back exactly when, after some number of rounds that each
   * ended in "not ok" and "change the selection", a round's "Ok to
   * download?" is refused and "Change your selection?" is refused too.
   */
  lemma DeclinedExactly(cat: seq<Descriptor>, responses: seq<string>)
    ensures Select(cat, responses) == Declined <==> exists r :: DeclinesIn(cat, responses, r)
  {
    if Select(cat, responses) == Declined {
      DeclinedHasRound(cat, responses);
    }
    if r :| DeclinesIn(cat, responses, r) {
      RoundDeclines(cat, responses, r);
    }
  }

  /**
   * `select_datasets`: ask about every catalog entry in order, numbering the
   * entries from 1 whether or not they are chosen, then ask for confirmation;
   * on refusal either start over with an empty selection or give up.
   */
  method SelectDatasets(cat: seq<Descriptor>, responses: seq<string>) returns (sel: Selection)
    ensures sel == Select(cat, responses)
    ensures sel.Chosen? ==> WellNumbered(cat, sel.plan)
  {
    var pos := 0;  // the next response to read
    var done := false;
    var okToDownload := false;
    var datasets: seq<Choice> := [];
    while !done
      invariant pos <= |responses|
      invariant !done ==> Select(cat, responses[pos..]) == Select(cat, responses)
      invariant done ==> Select(cat, responses) == if okToDownload then Chosen(datasets) else Declined
      decreases |responses| - pos, !done
    {
      ghost var round := responses[pos..];
      datasets := [];
      var counter := 1;
      for i := 0 to |cat|
        invariant counter == i + 1
        invariant pos == |responses| - |round| + i <= |responses|
        invariant datasets == Picks(cat, round, i)
      {
        if pos == |responses| {
          return InputEnded;
        }
        assert round[i] == responses[pos];
        if YesOrNo(responses[pos], cat[i].recommended) {
          datasets := datasets + [Choice(cat[i].name, counter)];
        }
        pos := pos + 1;
        counter := counter + 1;
      }
      assert round[..|cat|] == responses[pos - |cat|..pos];
      PicksPrefix(cat, round, round[..|cat|], |cat|);
      if pos == |responses| {
        return InputEnded;
      }
      okToDownload := YesOrNo(responses[pos], true);
      pos := pos + 1;
      if !okToDownload {
        if pos == |responses| {
          return InputEnded;
        }
        var change := YesOrNo(responses[pos], true);
        pos := pos + 1;
        if !change {
          done := true;
        } else {
          assert round[|cat| + 2..] == responses[pos..];
        }
      } else {
        done := true;
      }
    }
    sel := if okToDownload then Chosen(datasets) else Declined;
    SelectWellNumbered(cat, responses);
  }

  /** Picks depend only on the answers to the questions asked. */
  lemma {:induction false} PicksPrefix(cat: seq<Descriptor>, answers: seq<string>, prefix: seq<string>, k: nat)
    requires k <= |prefix| <= |answers| && k <= |cat|
    requires prefix == answers[..|prefix|]
    ensures Picks(cat, answers, k) == Picks(cat, prefix, k)
  {
    if k > 0 {
      PicksPrefix(cat, answers, prefix, k - 1);
    }
  }
}
