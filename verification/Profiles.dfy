/**
 Connection profiles of the flight deck (grm-flight-deck/src/graphStore.ts): the slugs that serve
 as profile ids, the search for an unused one, and what storage gives back. Trimming,
 lower-casing and the cleaning of connection settings are parameters.
 */
module Profiles {
  import opened Prelude

  datatype Settings = Settings(serviceBaseUrl: string, mode: string, workspace: string, limit: int, useFixtureData: bool)

  datatype Profile = Profile(id: string, name: string, settings: Settings)

  datatype Host = Host(Trim: string -> string, Lower: string -> string, Clean: Settings -> Settings)

  // -------------------------------------------------------------------- slugs

  predicate SlugLetter(c: char)
  {
    'a' <= c <= 'z' || '0' <= c <= '9'
  }

  /** Letters and digits, with single dashes between them. */
  predicate IsSlug(s: string)
  {
    && s != []
    && (forall i :: 0 <= i < |s| ==> SlugLetter(s[i]) || s[i] == '-')
    && s[0] != '-' && s[|s| - 1] != '-'
    && (forall i :: 0 < i < |s| && s[i] == '-' ==> s[i - 1] != '-')
  }

  lemma EmptyNoSlug()
    ensures !IsSlug("")
  {
  }

  /** What is used of the host's strings: slugs have no case and no surrounding space. */
  ghost predicate HostLaws(host: Host)
  {
    && (forall s: string :: host.Trim(host.Trim(s)) == host.Trim(s))
    && (forall s: string :: IsSlug(s) ==> host.Trim(s) == s && host.Lower(s) == s)
    && host.Trim("Local workspace") == "Local workspace" && host.Trim("New profile") == "New profile"
  }

  function SkipOthers(s: string): (r: string)
    ensures |r| <= |s| && (r != [] ==> SlugLetter(r[0]))
    ensures s != [] && !SlugLetter(s[0]) ==> |r| < |s|
  {
    if s == [] || SlugLetter(s[0]) then s else SkipOthers(s[1..])
  }

  /** Every run of other characters becomes one dash. */
  function Dashed(s: string): string
    decreases |s|
  {
    if s == [] then []
    else if SlugLetter(s[0]) then [s[0]] + Dashed(s[1..])
    else ['-'] + Dashed(SkipOthers(s))
  }

  /** One leading and one trailing dash go. */
  function WithoutEdgeDashes(s: string): string
  {
    var t := if s != [] && s[0] == '-' then s[1..] else s;
    if t != [] && t[|t| - 1] == '-' then t[..|t| - 1] else t
  }

  function StableProfileId(host: Host, value: string): string
  {
    var slug := WithoutEdgeDashes(Dashed(host.Lower(host.Trim(value))));
    if slug == "" then "local-workspace" else slug
  }

  predicate SingleDashes(s: string)
  {
    && (forall i :: 0 <= i < |s| ==> SlugLetter(s[i]) || s[i] == '-')
    && (forall i :: 0 < i < |s| && s[i] == '-' ==> s[i - 1] != '-')
  }

  lemma {:induction false} DashedIsSingle(s: string)
    ensures SingleDashes(Dashed(s))
    ensures s != [] && SlugLetter(s[0]) ==> Dashed(s) != [] && Dashed(s)[0] != '-'
    decreases |s|
  {
    if s != [] {
      if SlugLetter(s[0]) {
        DashedIsSingle(s[1..]);
      } else {
        DashedIsSingle(SkipOthers(s));
      }
    }
  }

  lemma EdgesTrimmed(s: string)
    requires SingleDashes(s)
    ensures WithoutEdgeDashes(s) == "" || IsSlug(WithoutEdgeDashes(s))
  {
    var t := if s != [] && s[0] == '-' then s[1..] else s;
    assert SingleDashes(t);
    assert t != [] ==> t[0] != '-';
  }

  lemma {:induction false} DashedKeepsSlug(s: string)
    requires SingleDashes(s) && (s != [] ==> s[|s| - 1] != '-')
    ensures Dashed(s) == s
  {
    if s != [] {
      DashedKeepsSlug(s[1..]);
      if !SlugLetter(s[0]) {
        assert s[1] != '-';
        assert SkipOthers(s) == s[1..];
      }
    }
  }

  /** The ids the function can return are exactly its fixed points, and exactly the slugs. */
  lemma StableExactly(host: Host, value: string)
    requires HostLaws(host)
    ensures IsSlug(StableProfileId(host, value))
    ensures StableProfileId(host, value) == value <==> IsSlug(value)
    ensures StableProfileId(host, StableProfileId(host, value)) == StableProfileId(host, value)
  {
    StableIsSlug(host, value);
    if IsSlug(value) {
      SlugIsStable(host, value);
    }
    SlugIsStable(host, StableProfileId(host, value));
  }

  // ------------------------------------------------------ what a slug is made of

  predicate OnlyLetters(s: string)
  {
    forall i :: 0 <= i < |s| ==> SlugLetter(s[i])
  }

  predicate OnlyOthers(s: string)
  {
    forall i :: 0 <= i < |s| ==> !SlugLetter(s[i])
  }

  /** The words of a text: its longest runs of letters and digits, in order. */
  ghost predicate MadeOf(s: string, words: seq<string>)
    decreases |words|
  {
    if words == [] then OnlyOthers(s)
    else exists gap, rest :: StartsWith(s, gap, words[0], rest) && MadeOf(rest, words[1..])
  }

  ghost predicate StartsWith(s: string, gap: string, word: string, rest: string)
  {
    && s == gap + word + rest && OnlyOthers(gap) && word != [] && OnlyLetters(word)
    && (rest == [] || !SlugLetter(rest[0]))
  }

  function WithDashes(words: seq<string>): string
  {
    if words == [] then "" else if |words| == 1 then words[0] else words[0] + "-" + WithDashes(words[1..])
  }

  lemma {:induction false} LettersDashed(word: string, rest: string)
    requires OnlyLetters(word)
    ensures Dashed(word + rest) == word + Dashed(rest)
  {
    if word == [] {
      assert word + rest == rest;
    } else {
      LettersDashed(word[1..], rest);
      assert SlugLetter((word + rest)[0]);
      hide SkipOthers, SlugLetter;
      assert (word + rest)[1..] == word[1..] + rest;
      assert word + Dashed(rest) == [word[0]] + (word[1..] + Dashed(rest));
    }
  }

  lemma {:induction false} OthersSkipped(gap: string, rest: string)
    requires OnlyOthers(gap) && (rest == [] || SlugLetter(rest[0]))
    ensures SkipOthers(gap + rest) == rest
    ensures gap != [] ==> Dashed(gap + rest) == "-" + Dashed(rest)
  {
    if gap == [] {
      assert gap + rest == rest;
    } else {
      OthersSkipped(gap[1..], rest);
      assert (gap + rest)[1..] == gap[1..] + rest;
    }
  }

  function LettersEnd(s: string): (n: nat)
    ensures n <= |s| && OnlyLetters(s[..n]) && (n == |s| || !SlugLetter(s[n]))
  {
    if s == [] || !SlugLetter(s[0]) then 0
    else
      var n := 1 + LettersEnd(s[1..]);
      assert s[..n] == [s[0]] + s[1..][..n - 1];
      n
  }

  function OthersEnd(s: string): (n: nat)
    ensures n <= |s| && OnlyOthers(s[..n]) && (n == |s| || SlugLetter(s[n]))
  {
    if s == [] || SlugLetter(s[0]) then 0
    else
      var n := 1 + OthersEnd(s[1..]);
      assert s[..n] == [s[0]] + s[1..][..n - 1];
      n
  }

  function DashIf(b: bool): string
  {
    if b then "-" else ""
  }

  /** Whether a text starts, or ends, with something that becomes a dash. */
  predicate DashFirst(s: string)
  {
    s != [] && !SlugLetter(s[0])
  }

  predicate DashLast(s: string)
  {
    s != [] && !SlugLetter(s[|s| - 1])
  }

  /** Dashing a text joins its words, with a dash more for other characters at either end. */
  lemma {:induction false} DashedWords(s: string) returns (words: seq<string>)
    ensures MadeOf(s, words)
    ensures Dashed(s) == DashIf(DashFirst(s)) + WithDashes(words) + DashIf(words != [] && DashLast(s))
    ensures words != [] ==> WithDashes(words) != [] && WithDashes(words)[0] != '-' && WithDashes(words)[|WithDashes(words)| - 1] != '-'
    ensures if words == [] then OnlyOthers(s) else s != []
    decreases |s|
  {
    hide Dashed, MadeOf, StartsWith, DashFirst, DashLast, WithDashes;
    if OnlyOthers(s) {
      words := [];
      NoWords(s);
    } else {
      var gap, word, rest := FirstWord(s);
      var more := DashedWords(rest);
      words := [word] + more;
      MadeOfMore(s, gap, word, rest, more);
      WordIsWord(s, gap, word, rest);
      JoinedEnds(word, more);
      NextWord(s, gap, word, rest, more, Dashed(rest));
    }
  }

  lemma WordIsWord(s: string, gap: string, word: string, rest: string)
    requires StartsWith(s, gap, word, rest)
    ensures word != [] && OnlyLetters(word) && s != []
  {
  }

  lemma NoWords(s: string)
    requires OnlyOthers(s)
    ensures MadeOf(s, []) && WithDashes([]) == "" && Dashed(s) == DashIf(DashFirst(s))
  {
    assert s + [] == s;
    OthersSkipped(s, []);
  }

  lemma FirstWord(s: string) returns (gap: string, word: string, rest: string)
    requires !OnlyOthers(s)
    ensures StartsWith(s, gap, word, rest) && |rest| < |s| && Dashed(s) == DashIf(gap != []) + (word + Dashed(rest))
  {
    hide Dashed, SkipOthers, OthersEnd, LettersEnd;
    var g := OthersEnd(s);
    var t := s[g..];
    gap := s[..g];
    assert s == gap + t;
    assert t != [] && SlugLetter(t[0]);
    var n := LettersEnd(t);
    word, rest := t[..n], t[n..];
    assert rest != [] ==> rest[0] == t[n];
    assert t == word + rest && s == gap + word + rest;
    hide SlugLetter;
    OthersSkipped(gap, t);
    LettersDashed(word, rest);
    GapDashed(s, gap, t);
  }

  lemma NextWord(s: string, gap: string, word: string, rest: string, more: seq<string>, dashed: string)
    requires StartsWith(s, gap, word, rest)
    requires more == [] ==> OnlyOthers(rest)
    requires more != [] ==> rest != []
    requires dashed == DashIf(DashFirst(rest)) + WithDashes(more) + DashIf(more != [] && DashLast(rest))
    ensures DashIf(gap != []) + (word + dashed) == DashIf(DashFirst(s)) + WithDashes([word] + more) + DashIf(DashLast(s))
  {
    WordFirst(word, more);
    LastOf(gap + word, rest);
    assert DashFirst(s) <==> gap != [];
    assert DashFirst(rest) <==> rest != [];
    var joined := WithDashes(more);
    assert more == [] ==> joined == "";
    hide WithDashes;
    if more == [] {
      assert DashLast(s) <==> rest != [];
      assert dashed == DashIf(rest != []);
      Assoc3(DashIf(gap != []), word, dashed);
    } else {
      assert DashLast(s) <==> DashLast(rest);
      var tail := DashIf(DashLast(rest));
      assert dashed == "-" + joined + tail;
      assert word + ("-" + joined + tail) == word + "-" + joined + tail;
      Assoc3(DashIf(gap != []), word + "-" + joined, tail);
    }
  }

  lemma JoinedEnds(word: string, more: seq<string>)
    requires word != [] && OnlyLetters(word)
    requires more != [] ==> WithDashes(more) != [] && WithDashes(more)[|WithDashes(more)| - 1] != '-'
    ensures var w := WithDashes([word] + more);
            w != [] && w[0] != '-' && w[|w| - 1] != '-'
  {
    WordFirst(word, more);
  }

  lemma MadeOfMore(s: string, gap: string, word: string, rest: string, more: seq<string>)
    requires StartsWith(s, gap, word, rest) && MadeOf(rest, more)
    ensures MadeOf(s, [word] + more)
  {
    assert ([word] + more)[1..] == more && ([word] + more)[0] == word;
  }

  lemma GapDashed(s: string, gap: string, t: string)
    requires s == gap + t
    requires gap != [] ==> Dashed(gap + t) == "-" + Dashed(t)
    ensures Dashed(s) == DashIf(gap != []) + Dashed(t)
  {
    if gap == [] {
      assert s == t;
    }
  }

  lemma LastOf(a: string, b: string)
    requires a != []
    ensures (a + b)[|a + b| - 1] == if b == [] then a[|a| - 1] else b[|b| - 1]
  {
  }

  lemma WordFirst(word: string, more: seq<string>)
    requires word != []
    ensures WithDashes([word] + more) == if more == [] then word else word + "-" + WithDashes(more)
  {
    assert ([word] + more)[1..] == more;
  }

  /** The id of a value is its words, lower-cased, joined by dashes; without a word it is the default. */
  lemma SlugExactly(host: Host, value: string)
    ensures exists words :: MadeOf(host.Lower(host.Trim(value)), words)
                            && StableProfileId(host, value) == if words == [] then "local-workspace" else WithDashes(words)
  {
    var s := host.Lower(host.Trim(value));
    var words := DashedWords(s);
    hide Dashed, MadeOf;
    var lead, mid, trail := DashIf(DashFirst(s)), WithDashes(words), DashIf(words != [] && DashLast(s));
    EdgesGo(lead, mid, trail);
    assert MadeOf(s, words) && StableProfileId(host, value) == if words == [] then "local-workspace" else WithDashes(words);
  }

  lemma EdgesGo(lead: string, mid: string, trail: string)
    requires lead == "-" || lead == ""
    requires trail == "-" || trail == ""
    requires mid == "" ==> trail == ""
    requires mid != "" ==> mid[0] != '-' && mid[|mid| - 1] != '-'
    ensures WithoutEdgeDashes(lead + mid + trail) == mid
  {
    var whole := lead + mid + trail;
    var t := if whole != [] && whole[0] == '-' then whole[1..] else whole;
    assert t == mid + trail;
    if trail == "-" {
      assert t[|t| - 1] == '-' && t[..|t| - 1] == mid;
    } else {
      assert t == mid;
    }
  }

  lemma StableIsSlug(host: Host, value: string)
    ensures IsSlug(StableProfileId(host, value))
  {
    var raw := Dashed(host.Lower(host.Trim(value)));
    DashedIsSingle(host.Lower(host.Trim(value)));
    EdgesTrimmed(raw);
  }

  lemma SlugIsStable(host: Host, s: string)
    requires HostLaws(host) && IsSlug(s)
    ensures StableProfileId(host, s) == s
  {
    DashedKeepsSlug(s);
  }

  // --------------------------------------------------------------- unused ids

  function Candidate(base: string, index: nat): string
  {
    base + "-" + Dec(index)
  }

  lemma CandidateInjective(base: string, m: nat, n: nat)
    requires Candidate(base, m) == Candidate(base, n)
    ensures m == n
  {
    var p := base + "-";
    DropPrefix(p, Dec(m));
    DropPrefix(p, Dec(n));
    DecInjective(m, n);
  }

  /** The candidates tried before `index`. */
  function Tried(base: string, index: nat): set<string>
  {
    if index <= 2 then {} else Tried(base, index - 1) + {Candidate(base, index - 1)}
  }

  lemma {:induction false} NotTried(base: string, index: nat, later: nat)
    requires index <= later
    ensures Candidate(base, later) !in Tried(base, index)
  {
    if index > 2 {
      NotTried(base, index - 1, later);
      if Candidate(base, later) == Candidate(base, index - 1) {
        CandidateInjective(base, later, index - 1);
      }
    }
  }

  /** A taken candidate leaves fewer existing ids untried. */
  lemma TryShrinks(base: string, existing: set<string>, index: nat)
    requires 2 <= index && Candidate(base, index) in existing
    ensures existing - Tried(base, index + 1) < existing - Tried(base, index)
  {
    NotTried(base, index, index);
  }

  function FirstFree(base: string, existing: set<string>, index: nat): (id: string)
    requires 2 <= index
    ensures id !in existing
    decreases existing - Tried(base, index)
  {
    if Candidate(base, index) in existing then
      TryShrinks(base, existing, index);
      FirstFree(base, existing, index + 1)
    else Candidate(base, index)
  }

  function UniqueProfileId(host: Host, value: string, existing: set<string>): (id: string)
    ensures id !in existing
  {
    var base := StableProfileId(host, value);
    if base in existing then FirstFree(base, existing, 2) else base
  }

  /** The source's loop, which has no bound of its own: it ends because the ids taken are finitely many. */
  method FindUniqueProfileId(host: Host, value: string, existingIds: seq<string>) returns (id: string)
    ensures id == UniqueProfileId(host, value, set x | x in existingIds)
  {
    var base := StableProfileId(host, value);
    var existing := set x | x in existingIds;
    if base !in existing {
      return base;
    }
    var index := 2;
    while Candidate(base, index) in existing
      invariant 2 <= index && FirstFree(base, existing, 2) == FirstFree(base, existing, index)
      decreases existing - Tried(base, index)
    {
      TryShrinks(base, existing, index);
      index := index + 1;
    }
    id := Candidate(base, index);
  }

  /** The id chosen is the slug itself or its first unused numbered form, counting from 2. */
  lemma {:induction false} FirstFreeExact(base: string, existing: set<string>, index: nat)
    requires 2 <= index
    ensures exists k :: index <= k && FirstFree(base, existing, index) == Candidate(base, k)
              && forall j :: index <= j < k ==> Candidate(base, j) in existing
    decreases existing - Tried(base, index)
  {
    if Candidate(base, index) in existing {
      TryShrinks(base, existing, index);
      FirstFreeExact(base, existing, index + 1);
      var k :| index + 1 <= k && FirstFree(base, existing, index + 1) == Candidate(base, k)
                 && forall j :: index + 1 <= j < k ==> Candidate(base, j) in existing;
    }
  }

  lemma CandidateIsSlug(base: string, index: nat)
    requires IsSlug(base)
    ensures IsSlug(Candidate(base, index))
  {
    var d := Dec(index);
    var s := Candidate(base, index);
    assert s == base + "-" + d;
    assert s[|base|] == '-' && s[|s| - 1] == d[|d| - 1] && s[0] == base[0];
    forall i | 0 <= i < |s|
      ensures SlugLetter(s[i]) || s[i] == '-'
      ensures 0 < i && s[i] == '-' ==> s[i - 1] != '-'
    {
      if i > |base| {
        assert s[i] == d[i - |base| - 1];
      } else if i < |base| {
        assert s[i] == base[i] && (i > 0 ==> s[i - 1] == base[i - 1]);
      }
    }
  }

  /** A new id is unused, and a slug, so storing it never changes it. */
  lemma UniqueIsStable(host: Host, value: string, existing: set<string>)
    requires HostLaws(host)
    ensures IsSlug(UniqueProfileId(host, value, existing)) && UniqueProfileId(host, value, existing) !in existing
  {
    var base := StableProfileId(host, value);
    StableIsSlug(host, value);
    if base in existing {
      FirstFreeExact(base, existing, 2);
      var k :| 2 <= k && FirstFree(base, existing, 2) == Candidate(base, k);
      CandidateIsSlug(base, k);
    }
  }

  // ------------------------------------------------------------------- storage

  function Sanitize(host: Host, p: Profile): Profile
  {
    Profile(
      StableProfileId(host, if p.id != "" then p.id else p.name),
      if host.Trim(p.name) != "" then host.Trim(p.name) else "Local workspace",
      host.Clean(p.settings))
  }

  function SanitizeAll(host: Host, ps: seq<Profile>): (r: seq<Profile>)
    ensures |r| == |ps| && forall i :: 0 <= i < |ps| ==> r[i] == Sanitize(host, ps[i])
  {
    if ps == [] then [] else SanitizeAll(host, ps[..|ps| - 1]) + [Sanitize(host, ps[|ps| - 1])]
  }

  /** What the storage key holds: nothing, text that does not parse to profiles, or a payload. */
  datatype Stored =
    | Missing
    | Malformed
    | Payload(version: int, selectedProfileId: Option<string>, profiles: Option<seq<Profile>>)

  datatype Restored = Restored(profiles: seq<Profile>, selected: Option<Profile>)

  function Find(ps: seq<Profile>, id: string): (r: Option<Profile>)
    ensures r.Some? ==> r.value in ps && r.value.id == id
    ensures r.None? ==> forall p :: p in ps ==> p.id != id
  {
    FindFirst(ps, (p: Profile) => p.id == id)
  }

  function Persist(host: Host, profiles: seq<Profile>, selectedProfileId: string): Stored
  {
    Payload(1, Some(selectedProfileId), Some(SanitizeAll(host, profiles)))
  }

  function Restore(host: Host, stored: Stored, legacy: Settings): Restored
  {
    match stored
    case Payload(version, selectedId, profiles) =>
      if version != 1 || selectedId.None? || profiles.None? then DefaultProfiles(legacy)
      else
        var ps := SanitizeAll(host, profiles.value);
        var id := if selectedId.value != "" then StableProfileId(host, selectedId.value) else "";
        var selected :=
          if id == "" then None
          else if Find(ps, id).Some? then Find(ps, id)
          else if ps != [] then Some(ps[0])
          else None;
        Restored(ps, selected)
    case Missing => DefaultProfiles(legacy)
    case Malformed => DefaultProfiles(legacy)
  }

  function DefaultProfiles(legacy: Settings): Restored
  {
    var p := Profile("local-workspace", "Local workspace", legacy);
    Restored([p], Some(p))
  }

  ghost predicate DistinctIds(ps: seq<Profile>)
  {
    forall i, j :: 0 <= i < j < |ps| ==> ps[i].id != ps[j].id
  }

  predicate Good(host: Host, p: Profile)
  {
    IsSlug(p.id) && p.name != "" && host.Trim(p.name) == p.name
  }

  /** Ids are slugs and distinct, names are trimmed and not empty, and the selected id is one of them or empty. */
  ghost predicate WellFormed(host: Host, ps: seq<Profile>, selectedProfileId: string)
  {
    && DistinctIds(ps)
    && (forall p :: p in ps ==> Good(host, p))
    && (selectedProfileId != "" ==> exists p :: p in ps && p.id == selectedProfileId)
  }

  /** Writing well-formed profiles and reading them back keeps ids, names, order and the selection. */
  lemma RestorePersisted(host: Host, ps: seq<Profile>, selectedProfileId: string, legacy: Settings)
    requires HostLaws(host) && WellFormed(host, ps, selectedProfileId)
    ensures var r := Restore(host, Persist(host, ps, selectedProfileId), legacy);
            && |r.profiles| == |ps|
            && (forall i :: 0 <= i < |ps| ==>
                  && r.profiles[i].id == ps[i].id && r.profiles[i].name == ps[i].name
                  && r.profiles[i].settings == host.Clean(host.Clean(ps[i].settings)))
            && (if selectedProfileId == "" then r.selected.None? else r.selected.Some? && r.selected.value.id == selectedProfileId)
            && WellFormed(host, r.profiles, if r.selected.Some? then r.selected.value.id else "")
  {
    hide StableProfileId, Sanitize, SanitizeAll, IsSlug, HostLaws, DistinctIds, WellFormed;
    var twice := SanitizeAll(host, SanitizeAll(host, ps));
    SelectionDropped(host, ps, selectedProfileId);
    SanitizedKeepNames(host, ps);
    SameNamesWellFormed(host, ps, twice, selectedProfileId);
    if selectedProfileId != "" {
      SelectedIsThere(host, twice, selectedProfileId);
    }
  }

  lemma SelectionDropped(host: Host, ps: seq<Profile>, selectedProfileId: string)
    requires WellFormed(host, ps, selectedProfileId)
    ensures WellFormed(host, ps, "")
  {
  }

  lemma SelectedIsThere(host: Host, ps: seq<Profile>, id: string)
    requires HostLaws(host) && WellFormed(host, ps, id) && id != ""
    ensures StableProfileId(host, id) == id && Find(ps, id).Some?
  {
    assert IsSlug(id);
    SlugIsStable(host, id);
  }

  lemma SanitizedKeepNames(host: Host, ps: seq<Profile>)
    requires HostLaws(host) && WellFormed(host, ps, "")
    ensures var twice := SanitizeAll(host, SanitizeAll(host, ps));
            |twice| == |ps| && forall i :: 0 <= i < |ps| ==>
              && twice[i].id == ps[i].id && twice[i].name == ps[i].name
              && twice[i].settings == host.Clean(host.Clean(ps[i].settings))
  {
    forall i | 0 <= i < |ps|
      ensures Sanitize(host, Sanitize(host, ps[i])).id == ps[i].id && Sanitize(host, Sanitize(host, ps[i])).name == ps[i].name
      ensures Sanitize(host, Sanitize(host, ps[i])).settings == host.Clean(host.Clean(ps[i].settings))
    {
      assert ps[i] in ps;
      SlugIsStable(host, ps[i].id);
    }
    hide Sanitize;
  }

  lemma SameNamesWellFormed(host: Host, ps: seq<Profile>, qs: seq<Profile>, selectedProfileId: string)
    requires WellFormed(host, ps, selectedProfileId)
    requires |qs| == |ps| && forall i :: 0 <= i < |ps| ==> qs[i].id == ps[i].id && qs[i].name == ps[i].name
    ensures WellFormed(host, qs, selectedProfileId)
  {
    hide IsSlug;
    forall q | q in qs
      ensures Good(host, q)
    {
      var i :| 0 <= i < |qs| && qs[i] == q;
      assert ps[i] in ps;
    }
    if selectedProfileId != "" {
      var p :| p in ps && p.id == selectedProfileId;
      var i :| 0 <= i < |ps| && ps[i] == p;
      assert qs[i] in qs;
    }
  }

  /** What comes back from storage: nothing of it unless it is a payload of version 1 with profiles and a selection. */
  lemma RestoreExactly(host: Host, stored: Stored, legacy: Settings)
    ensures var r := Restore(host, stored, legacy);
            if stored.Payload? && stored.version == 1 && stored.selectedProfileId.Some? && stored.profiles.Some? then
              var ps, asked := stored.profiles.value, stored.selectedProfileId.value;
              && |r.profiles| == |ps|
              && (forall i :: 0 <= i < |ps| ==>
                    && r.profiles[i].id == StableProfileId(host, if ps[i].id != "" then ps[i].id else ps[i].name)
                    && r.profiles[i].name == (if host.Trim(ps[i].name) == "" then "Local workspace" else host.Trim(ps[i].name))
                    && r.profiles[i].settings == host.Clean(ps[i].settings))
              && SelectedFrom(r.profiles, if asked == "" then "" else StableProfileId(host, asked), r.selected)
            else
              r.profiles == [Profile("local-workspace", "Local workspace", legacy)] && r.selected == Some(r.profiles[0])
  {
    if stored.Payload? && stored.version == 1 && stored.selectedProfileId.Some? && stored.profiles.Some? {
      var ps, asked := SanitizeAll(host, stored.profiles.value), stored.selectedProfileId.value;
      var id := if asked == "" then "" else StableProfileId(host, asked);
      if asked != "" {
        StableIsSlug(host, asked);
        EmptyNoSlug();
      }
      FindFirstExactly(ps, (p: Profile) => p.id == id);
      hide StableProfileId, IsSlug;
    }
  }

  /** The first profile of the id, or the first of all if none has it; nothing if nothing was selected. */
  ghost predicate SelectedFrom(ps: seq<Profile>, id: string, selected: Option<Profile>)
  {
    if id == "" || ps == [] then selected.None?
    else if exists p :: p in ps && p.id == id then
      exists i :: 0 <= i < |ps| && ps[i].id == id && (forall j :: 0 <= j < i ==> ps[j].id != id) && selected == Some(ps[i])
    else selected == Some(ps[0])
  }

  /** Foreign storage can bring duplicate ids back: they are distinct exactly when the stored ids' slugs are. */
  lemma RestoreDistinctExactly(host: Host, ps: seq<Profile>, selectedProfileId: string, legacy: Settings)
    ensures DistinctIds(Restore(host, Payload(1, Some(selectedProfileId), Some(ps)), legacy).profiles)
            <==> forall i, j :: 0 <= i < j < |ps| ==> StoredId(host, ps[i]) != StoredId(host, ps[j])
  {
    var restored := Restore(host, Payload(1, Some(selectedProfileId), Some(ps)), legacy).profiles;
    assert forall i :: 0 <= i < |ps| ==> restored[i].id == StoredId(host, ps[i]);
    hide StoredId;
  }

  function StoredId(host: Host, p: Profile): string
  {
    StableProfileId(host, if p.id != "" then p.id else p.name)
  }
}
