/** Workspace slugs (identity/workspaces.py): deriving one from a display name, and finding a free one. */
module Slugs {
  import opened FiniteSets

  const SLUG_MAX_LENGTH := 63

  predicate IsAlnum(c: char) {
    'a' <= c <= 'z' || '0' <= c <= '9'
  }

  /**
   The documented contract: 1 to 63 characters, lowercase letters, digits, hyphen and underscore, alphanumeric first.
   */
  predicate SlugContract(s: string) {
    && 1 <= |s| <= SLUG_MAX_LENGTH
    && IsAlnum(s[0])
    && forall i | 0 <= i < |s| :: IsAlnum(s[i]) || s[i] == '-' || s[i] == '_'
  }

  // ---------------------------------------------------------------- auto_slug

  function DropOthers(t: string): (r: string)
    ensures |r| <= |t| && (r == "" || IsAlnum(r[0]))
    ensures t != "" && !IsAlnum(t[0]) ==> |r| < |t|
  {
    if t == "" || IsAlnum(t[0]) then t else DropOthers(t[1..])
  }

  /** Every maximal run of other characters becomes one hyphen. */
  function Dashed(t: string): string
    decreases |t|
  {
    if t == "" then ""
    else if IsAlnum(t[0]) then [t[0]] + Dashed(t[1..])
    else "-" + Dashed(DropOthers(t))
  }

  predicate Strippable(c: char) {
    c == '-' || c == '_'
  }

  function StripLeft(s: string): string {
    if s != "" && Strippable(s[0]) then StripLeft(s[1..]) else s
  }

  function StripRight(s: string): string {
    if s != "" && Strippable(s[|s| - 1]) then StripRight(s[..|s| - 1]) else s
  }

  function Strip(s: string): string {
    StripRight(StripLeft(s))
  }

  /** Every run of hyphens becomes one hyphen. */
  function Collapse(s: string): string {
    if |s| < 2 then s
    else if s[0] == '-' && s[1] == '-' then Collapse(s[1..])
    else [s[0]] + Collapse(s[1..])
  }

  function Take(s: string, k: nat): string {
    if k <= |s| then s[..k] else s
  }

  /** The slug of a name, given the name stripped and lower-cased. */
  function AutoSlug(lowered: string): string {
    var dashed := Strip(Dashed(lowered));
    var slug := Strip(Take(Collapse(dashed), SLUG_MAX_LENGTH));
    if slug == "" then "workspace" else slug
  }

  /** Letters, digits and single hyphens, none of them at an end. */
  predicate Dashing(s: string) {
    && (forall i | 0 <= i < |s| :: IsAlnum(s[i]) || s[i] == '-')
    && (forall i | 0 < i < |s| :: s[i - 1] == '-' ==> s[i] != '-')
  }

  predicate Canonical(s: string) {
    1 <= |s| <= SLUG_MAX_LENGTH && Dashing(s) && s[0] != '-' && s[|s| - 1] != '-'
  }

  lemma {:induction false} DashedIsDashing(t: string)
    ensures Dashing(Dashed(t))
    ensures t != "" && IsAlnum(t[0]) ==> Dashed(t) != "" && Dashed(t)[0] == t[0]
    decreases |t|
  {
    if t != "" {
      if IsAlnum(t[0]) {
        DashedIsDashing(t[1..]);
      } else {
        DashedIsDashing(DropOthers(t));
      }
    }
  }

  lemma {:induction false} StripLeftFacts(s: string)
    requires Dashing(s)
    ensures |StripLeft(s)| <= |s| && Dashing(StripLeft(s)) && (StripLeft(s) != "" ==> StripLeft(s)[0] != '-')
    ensures s != "" && s[0] != '-' ==> StripLeft(s) == s
  {
    if s != "" && Strippable(s[0]) {
      StripLeftFacts(s[1..]);
    }
  }

  lemma {:induction false} StripRightFacts(s: string)
    requires Dashing(s)
    ensures StripRight(s) <= s && Dashing(StripRight(s))
    ensures StripRight(s) != "" ==> StripRight(s)[|StripRight(s)| - 1] != '-'
    ensures s != "" && s[|s| - 1] != '-' ==> StripRight(s) == s
  {
    if s != "" && Strippable(s[|s| - 1]) {
      StripRightFacts(s[..|s| - 1]);
    }
  }

  lemma {:induction false} CollapseNothing(s: string)
    requires Dashing(s)
    ensures Collapse(s) == s
  {
    if |s| >= 2 {
      CollapseNothing(s[1..]);
      assert s == [s[0]] + s[1..];
    }
  }

  /** Whatever the name, the derived slug is canonical, hence within the contract. */
  lemma AutoSlugCanonical(lowered: string)
    ensures Canonical(AutoSlug(lowered)) && SlugContract(AutoSlug(lowered))
  {
    hide Dashed, Strip, Dashing, IsAlnum;
    DashedIsDashing(lowered);
    StripFacts(Dashed(lowered));
    var dashed := Strip(Dashed(lowered));
    CollapseNothing(dashed);
    var cut := Take(dashed, SLUG_MAX_LENGTH);
    TakeFacts(dashed, SLUG_MAX_LENGTH);
    StripFacts(cut);
    assert |Strip(cut)| <= |cut| <= SLUG_MAX_LENGTH;
    if Strip(cut) == "" {
      DefaultIsCanonical();
    } else {
      CanonicalMeetsContract(Strip(cut));
    }
  }

  lemma TakeFacts(s: string, k: nat)
    requires Dashing(s)
    ensures Dashing(Take(s, k)) && |Take(s, k)| <= k
  {
  }

  lemma StripFacts(s: string)
    requires Dashing(s)
    ensures Dashing(Strip(s)) && |Strip(s)| <= |s|
    ensures Strip(s) != "" ==> Strip(s)[0] != '-' && Strip(s)[|Strip(s)| - 1] != '-'
  {
    StripLeftFacts(s);
    StripRightFacts(StripLeft(s));
  }

  lemma DefaultIsCanonical()
    ensures Canonical("workspace") && SlugContract("workspace")
  {
  }

  lemma CanonicalMeetsContract(s: string)
    requires Canonical(s)
    ensures SlugContract(s)
  {
  }

  lemma {:induction false} DashedKeeps(s: string)
    requires Dashing(s) && (s != "" ==> s[|s| - 1] != '-')
    ensures Dashed(s) == s
    decreases |s|
  {
    if s != "" {
      if IsAlnum(s[0]) {
        DashedKeeps(s[1..]);
      } else {
        assert DropOthers(s) == s[1..];
        DashedKeeps(s[1..]);
      }
      assert s == [s[0]] + s[1..];
    }
  }

  /** The fixed points of the derivation are exactly the canonical slugs; with the lemma above it is idempotent. */
  lemma AutoSlugFixpoints(s: string)
    ensures AutoSlug(s) == s <==> Canonical(s)
  {
    AutoSlugCanonical(s);
    if Canonical(s) {
      DashedKeeps(s);
      StripLeftFacts(s);
      StripRightFacts(s);
      CollapseNothing(s);
    }
  }

  // ---------------------------------------------------------------- the words of a name

  /** The maximal runs of letters and digits, in order. */
  function Words(t: string): (r: seq<string>)
    ensures t != "" && IsAlnum(t[0]) ==> r != []
  {
    if t == "" then []
    else if !IsAlnum(t[0]) then Words(t[1..])
    else if |t| == 1 || !IsAlnum(t[1]) then [[t[0]]] + Words(t[1..])
    else var rest := Words(t[1..]); [[t[0]] + rest[0]] + rest[1..]
  }

  function Join(words: seq<string>): string {
    if |words| == 0 then "" else if |words| == 1 then words[0] else words[0] + "-" + Join(words[1..])
  }

  /** What `Words` means: a run is one word, and any other character separates words. */
  lemma WordsExactly(t: string)
    ensures t != "" && (forall i | 0 <= i < |t| :: IsAlnum(t[i])) ==> Words(t) == [t]
    ensures forall i | 0 <= i < |t| :: !IsAlnum(t[i]) ==> Words(t) == Words(t[..i]) + Words(t[i + 1..])
  {
    if t != "" && forall i | 0 <= i < |t| :: IsAlnum(t[i]) {
      WordsOfRun(t);
    }
    forall i | 0 <= i < |t| && !IsAlnum(t[i])
      ensures Words(t) == Words(t[..i]) + Words(t[i + 1..])
    {
      WordsSplit(t, i);
    }
  }

  lemma {:induction false} WordsOfRun(t: string)
    requires t != "" && forall i | 0 <= i < |t| :: IsAlnum(t[i])
    ensures Words(t) == [t]
  {
    if |t| == 1 {
      assert Words(t[1..]) == [];
      assert t == [t[0]];
    } else {
      WordsOfRun(t[1..]);
      assert [t[0]] + t[1..] == t;
    }
  }

  lemma {:induction false} WordsSplit(t: string, i: nat)
    requires i < |t| && !IsAlnum(t[i])
    ensures Words(t) == Words(t[..i]) + Words(t[i + 1..])
  {
    if i > 0 {
      assert t[1..][..i - 1] == t[..i][1..] && t[1..][i..] == t[i + 1..];
      WordsSplit(t[1..], i - 1);
      if i == 1 {
        assert t[..i][1..] == "";
      }
    }
  }

  lemma {:induction false} DropWords(t: string)
    ensures Words(DropOthers(t)) == Words(t)
  {
    if t != "" && !IsAlnum(t[0]) {
      DropWords(t[1..]);
    }
  }

  lemma {:induction false} DashedWords(t: string)
    ensures Words(Dashed(t)) == Words(t)
    decreases |t|
  {
    if t != "" {
      if IsAlnum(t[0]) {
        DashedWords(t[1..]);
        DashedIsDashing(t[1..]);
        assert Dashed(t)[1..] == Dashed(t[1..]);
        assert |t| > 1 && !IsAlnum(t[1]) ==> Dashed(t[1..])[0] == '-';
      } else {
        DashedWords(DropOthers(t));
        DropWords(t);
        assert Dashed(t)[1..] == Dashed(DropOthers(t));
      }
    }
  }

  lemma {:induction false} StripLeftWords(s: string)
    ensures Words(StripLeft(s)) == Words(s)
  {
    if s != "" && Strippable(s[0]) {
      StripLeftWords(s[1..]);
    }
  }

  lemma {:induction false} StripRightWords(s: string)
    ensures Words(StripRight(s)) == Words(s)
  {
    if s != "" && Strippable(s[|s| - 1]) {
      StripRightWords(s[..|s| - 1]);
      WordsSplit(s, |s| - 1);
    }
  }

  /** A text of words with single hyphens between them is the join of its words. */
  lemma {:induction false} JoinWords(s: string)
    requires Dashing(s) && (s != "" ==> s[0] != '-' && s[|s| - 1] != '-')
    ensures Join(Words(s)) == s
    ensures s != "" ==> Words(s) != []
    decreases |s|
  {
    if |s| > 1 {
      if s[1] == '-' {
        assert Words(s[1..]) == Words(s[2..]) by {
          assert s[1..][1..] == s[2..];
        }
        JoinWords(s[2..]);
        assert s == [s[0]] + "-" + s[2..];
        assert Words(s)[1..] == Words(s[2..]);
      } else {
        var rest := Words(s[1..]);
        JoinWords(s[1..]);
        assert Words(s) == [[s[0]] + rest[0]] + rest[1..];
        JoinFirst(s[0], rest);
        assert s == [s[0]] + s[1..];
      }
    }
  }

  lemma JoinFirst(c: char, words: seq<string>)
    requires words != []
    ensures Join([[c] + words[0]] + words[1..]) == [c] + Join(words)
  {
    var more := [[c] + words[0]] + words[1..];
    if |words| > 1 {
      assert more[1..] == words[1..];
      assert Join(more) == ([c] + words[0]) + "-" + Join(words[1..]);
    }
  }

  /**
   The derived slug is the words of the name joined by single hyphens, cut after 63 characters and, where the cut leaves
   one, without its last hyphen; a name without words gives "workspace".
   */
  lemma AutoSlugExactly(lowered: string)
    ensures Words(lowered) == [] ==> AutoSlug(lowered) == "workspace"
    ensures Words(lowered) != [] ==>
              var full := Join(Words(lowered));
              AutoSlug(lowered) ==
                if |full| <= 63 then full else if full[62] == '-' then full[..62] else full[..63]
  {
    var full := Strip(Dashed(lowered));
    FullIsJoin(lowered);
    CollapseNothing(full);
    if full != "" {
      CutExactly(full);
    }
  }

  lemma FullIsJoin(lowered: string)
    ensures var full := Strip(Dashed(lowered));
            && full == Join(Words(lowered)) && (full == "" <==> Words(lowered) == []) && Dashing(full)
            && (full != "" ==> full[0] != '-' && full[|full| - 1] != '-')
  {
    hide Dashed, Dashing, Words, Join, IsAlnum, StripLeft, StripRight;
    DashedIsDashing(lowered);
    StripFacts(Dashed(lowered));
    DashedWords(lowered);
    StripLeftWords(Dashed(lowered));
    StripRightWords(StripLeft(Dashed(lowered)));
    JoinWords(Strip(Dashed(lowered)));
    NoWords();
  }

  lemma NoWords()
    ensures Words("") == [] && Join([]) == ""
  {
  }

  /** Cutting can leave one hyphen at the end, and only there. */
  lemma CutExactly(full: string)
    requires full != "" && Dashing(full) && full[0] != '-' && full[|full| - 1] != '-'
    ensures Strip(Take(full, 63)) ==
              if |full| <= 63 then full else if full[62] == '-' then full[..62] else full[..63]
  {
    var cut := Take(full, 63);
    assert StripLeft(cut) == cut;
    if |full| > 63 {
      assert cut == full[..63];
      if full[62] == '-' {
        assert full[61] != '-' && cut[..62] == full[..62];
        assert StripRight(cut) == StripRight(cut[..62]) == full[..62];
      }
    }
  }

  // ---------------------------------------------------------------- numbered candidates

  function Digit(d: nat): char
    requires d < 10
  {
    ('0' as int + d) as char
  }

  function Digits(n: nat): string {
    if n < 10 then [Digit(n)] else Digits(n / 10) + [Digit(n % 10)]
  }

  function Suffix(counter: nat): string {
    "-" + Digits(counter)
  }

  /** Python's `s[:k]`, which counts from the end when k is negative. */
  function Prefix(s: string, k: int): string {
    if k >= 0 then Take(s, k) else if |s| + k >= 0 then s[..|s| + k] else ""
  }

  function Candidate(desired: string, counter: nat): string {
    Prefix(desired, SLUG_MAX_LENGTH - |Suffix(counter)|) + Suffix(counter)
  }

  function Pow10(e: nat): nat {
    if e == 0 then 1 else 10 * Pow10(e - 1)
  }

  predicate IsNumeral(s: string) {
    s != "" && forall i | 0 <= i < |s| :: '0' <= s[i] <= '9'
  }

  /** The number a decimal numeral writes. */
  function Value(s: string): nat
    requires forall i | 0 <= i < |s| :: '0' <= s[i] <= '9'
  {
    if s == "" then 0 else 10 * Value(s[..|s| - 1]) + (s[|s| - 1] as int - '0' as int)
  }

  /** The digits of a number are its numeral, without leading zeros. */
  lemma {:induction false} DigitsExactly(n: nat)
    ensures IsNumeral(Digits(n)) && Value(Digits(n)) == n
    ensures n > 0 ==> Digits(n)[0] != '0'
    ensures Digits(0) == "0"
  {
    var s := Digits(n);
    if n < 10 {
      assert s[..|s| - 1] == "";
    } else {
      DigitsExactly(n / 10);
      assert s[..|s| - 1] == Digits(n / 10);
    }
  }

  lemma DigitsInjective(a: nat, b: nat)
    requires Digits(a) == Digits(b)
    ensures a == b
  {
    DigitsExactly(a);
    DigitsExactly(b);
  }

  lemma {:induction false} DigitsFacts(n: nat)
    ensures |Digits(n)| >= 1 && (|Digits(n)| == 1 <==> n < 10)
    ensures forall i | 0 <= i < |Digits(n)| :: '0' <= Digits(n)[i] <= '9'
  {
    if n >= 10 {
      DigitsFacts(n / 10);
    }
  }

  lemma {:induction false} DigitsLength(n: nat, e: nat)
    requires e >= 1 && n < Pow10(e)
    ensures |Digits(n)| <= e
  {
    if n >= 10 {
      assert Pow10(e) == 10 * Pow10(e - 1);
      DigitsLength(n / 10, e - 1);
    }
  }

  lemma {:induction false} DigitsLong(n: nat, e: nat)
    requires n >= Pow10(e)
    ensures |Digits(n)| >= e + 1
  {
    DigitsFacts(n);
    if e > 0 {
      assert Pow10(e) == 10 * Pow10(e - 1);
      Pow10Positive(e - 1);
      DigitsLong(n / 10, e - 1);
    }
  }

  lemma {:induction false} Pow10Positive(e: nat)
    ensures Pow10(e) >= 1
  {
    if e > 0 {
      Pow10Positive(e - 1);
    }
  }

  /** The text after the last hyphen. */
  function AfterDash(s: string): string {
    if s == "" || s[|s| - 1] == '-' then "" else AfterDash(s[..|s| - 1]) + [s[|s| - 1]]
  }

  lemma {:induction false} AfterDashOf(p: string, ds: string)
    requires forall i | 0 <= i < |ds| :: ds[i] != '-'
    ensures AfterDash(p + "-" + ds) == ds
  {
    var s := p + "-" + ds;
    if ds == "" {
      assert s[|s| - 1] == '-';
    } else {
      assert s[..|s| - 1] == p + "-" + ds[..|ds| - 1];
      AfterDashOf(p, ds[..|ds| - 1]);
      assert s[|s| - 1] == ds[|ds| - 1];
    }
  }

  /**
   A candidate is a beginning of the desired slug, as long as fits into 63 characters, a hyphen and the numeral of the
   counter.
   */
  lemma CandidateExactly(desired: string, counter: nat)
    ensures counter < CAPACITY ==>
              exists head: string, numeral: string ::
                && Candidate(desired, counter) == head + "-" + numeral && head <= desired
                && (|head| == |desired| || |head| + 1 + |numeral| == 63)
                && |head| + 1 + |numeral| <= 63
                && IsNumeral(numeral) && Value(numeral) == counter && (counter > 0 ==> numeral[0] != '0')
  {
    DigitsExactly(counter);
    var head, numeral := Prefix(desired, SLUG_MAX_LENGTH - |Suffix(counter)|), Digits(counter);
    assert Candidate(desired, counter) == head + "-" + numeral;
    if counter < CAPACITY {
      DigitsLength(counter, 61);
    }
  }

  /** Different counters give different candidates, however much of the desired slug is cut off. */
  lemma CandidateInjective(desired: string, a: nat, b: nat)
    requires Candidate(desired, a) == Candidate(desired, b)
    ensures a == b
  {
    CandidateTail(desired, a);
    CandidateTail(desired, b);
    DigitsInjective(a, b);
  }

  lemma CandidateTail(desired: string, counter: nat)
    ensures AfterDash(Candidate(desired, counter)) == Digits(counter)
  {
    var p := Prefix(desired, SLUG_MAX_LENGTH - |Suffix(counter)|);
    DigitsFacts(counter);
    AfterDashOf(p, Digits(counter));
    assert Candidate(desired, counter) == p + "-" + Digits(counter);
  }

  ghost function Candidates(desired: string, until: nat): set<string> {
    set k | 2 <= k < until :: Candidate(desired, k)
  }

  lemma {:induction false} CandidatesSize(desired: string, until: nat)
    requires until >= 2
    ensures |Candidates(desired, until)| == until - 2
  {
    if until == 2 {
      assert Candidates(desired, until) == {};
    } else {
      var last := Candidate(desired, until - 1);
      CandidatesSize(desired, until - 1);
      assert Candidates(desired, until) == Candidates(desired, until - 1) + {last};
      if last in Candidates(desired, until - 1) {
        var k :| 2 <= k < until - 1 && Candidate(desired, k) == last;
        CandidateInjective(desired, k, until - 1);
      }
    }
  }

  /** Pigeonhole: n taken candidates need n taken slugs. */
  lemma TakenCandidates(desired: string, until: nat, slugs: set<string>)
    requires until >= 2 && forall k | 2 <= k < until :: Candidate(desired, k) in slugs
    ensures until - 2 <= |slugs|
  {
    CandidatesSize(desired, until);
    SubsetSize(Candidates(desired, until), slugs);
  }

  const CAPACITY := Pow10(61)

  /** A candidate of a contract-valid slug is contract-valid as long as its number leaves room for a first character. */
  lemma CandidateMeetsContract(desired: string, counter: nat)
    requires SlugContract(desired) && counter < CAPACITY
    ensures SlugContract(Candidate(desired, counter))
  {
    DigitsFacts(counter);
    DigitsLength(counter, 61);
    var suffix := Suffix(counter);
    var head := Prefix(desired, SLUG_MAX_LENGTH - |suffix|);
    assert head != "" && head[0] == desired[0];
    assert forall i | 0 <= i < |suffix| :: IsAlnum(suffix[i]) || suffix[i] == '-';
  }

  /**
   And only then: a longer number fills the slug with its suffix, which starts with a hyphen, or makes it too long.
   */
  lemma CandidateMeetsContractExactly(desired: string, counter: nat)
    requires SlugContract(desired)
    ensures SlugContract(Candidate(desired, counter)) <==> counter < CAPACITY
  {
    if counter < CAPACITY {
      CandidateMeetsContract(desired, counter);
    } else {
      DigitsLong(counter, 61);
      var suffix := Suffix(counter);
      var candidate := Candidate(desired, counter);
      assert suffix[0] == '-' && |candidate| >= |suffix| >= SLUG_MAX_LENGTH;
      if |suffix| == SLUG_MAX_LENGTH {
        assert candidate == "" + suffix && candidate[0] == '-';
      }
    }
  }

  /** `slug` is the desired one if it is free, and else the free candidate with the least number. */
  ghost predicate FirstFree(desired: string, slugs: set<string>, slug: string) {
    && slug !in slugs
    && (desired !in slugs ==> slug == desired)
    && (desired in slugs ==>
          exists c: nat :: 2 <= c <= |slugs| + 2 && slug == Candidate(desired, c)
            && forall k | 2 <= k < c :: Candidate(desired, k) in slugs)
  }

  lemma FirstFreeMeetsContract(desired: string, slugs: set<string>, slug: string)
    requires FirstFree(desired, slugs, slug) && SlugContract(desired) && |slugs| + 2 < CAPACITY
    ensures SlugContract(slug)
  {
    if desired in slugs {
      var c: nat :| 2 <= c <= |slugs| + 2 && slug == Candidate(desired, c);
      CandidateMeetsContract(desired, c);
    }
  }

  method UniqueSlug(slugs: set<string>, desired: string) returns (slug: string)
    ensures slug !in slugs && (desired !in slugs ==> slug == desired)
    ensures desired in slugs ==>
              exists c: nat :: 2 <= c <= |slugs| + 2 && slug == Candidate(desired, c)
                && forall k | 2 <= k < c :: Candidate(desired, k) in slugs
    ensures FirstFree(desired, slugs, slug)
  {
    var counter: nat := 2;
    slug := desired;
    while slug in slugs
      invariant counter >= 2
      invariant counter == 2 ==> slug == desired
      invariant counter > 2 ==> desired in slugs && slug == Candidate(desired, counter - 1)
      invariant counter > 2 ==> counter - 3 <= |slugs|
      invariant forall k | 2 <= k < counter - 1 :: Candidate(desired, k) in slugs
      decreases |slugs| + 3 - counter
    {
      TakenCandidates(desired, counter, slugs);
      var suffix := Suffix(counter);
      slug := Prefix(desired, SLUG_MAX_LENGTH - |suffix|) + suffix;
      counter := counter + 1;
    }
  }
}
