/** Matching of topic names against patterns, segment by segment, with backtracking. */
module PatternMatch {
  import opened Wire

  // ---------------------------------------------------------------- what a match is

  /** The bindings of the wildcards of a pattern: one segment for '*', any number for '>'. */
  ghost predicate Fits(p: seq<string>, bindings: seq<seq<string>>) {
    if p == [] then bindings == []
    else if p[0] == "*" then bindings != [] && |bindings[0]| == 1 && Fits(p[1..], bindings[1..])
    else if p[0] == ">" then bindings != [] && Fits(p[1..], bindings[1..])
    else Fits(p[1..], bindings)
  }

  /** The pattern with its wildcards replaced. */
  ghost function Expand(p: seq<string>, bindings: seq<seq<string>>): seq<string>
    requires Fits(p, bindings)
  {
    if p == [] then []
    else if p[0] == "*" || p[0] == ">" then bindings[0] + Expand(p[1..], bindings[1..])
    else [p[0]] + Expand(p[1..], bindings)
  }

  ghost predicate IsMatch(p: seq<string>, t: seq<string>, bindings: seq<seq<string>>) {
    Fits(p, bindings) && Expand(p, bindings) == t
  }

  // ---------------------------------------------------------------- the match that is found

  function Prepend(b: seq<string>, rest: Option<seq<seq<string>>>): Option<seq<seq<string>>> {
    if rest.Some? then Some([b] + rest.value) else None
  }

  /** The first match: every '>' takes as few segments as the rest allows. */
  function First(p: seq<string>, t: seq<string>): Option<seq<seq<string>>>
    decreases |p|, 0, 0
  {
    if p == [] then if t == [] then Some([]) else None
    else if p[0] == "*" then if t == [] then None else Prepend([t[0]], First(p[1..], t[1..]))
    else if p[0] == ">" then FirstFrom(p, t, 0)
    else if t == [] || p[0] != t[0] then None
    else First(p[1..], t[1..])
  }

  /** The first match in which the leading '>' takes at least k segments. */
  function FirstFrom(p: seq<string>, t: seq<string>, k: nat): Option<seq<seq<string>>>
    requires p != [] && k <= |t| + 1
    decreases |p| - 1, 1, |t| + 1 - k
  {
    if k > |t| then None
    else
      var rest := First(p[1..], t[k..]);
      if rest.Some? then Some([t[..k]] + rest.value) else FirstFrom(p, t, k + 1)
  }

  /** Soundness: what is found expands to the topic. */
  lemma {:induction false} FirstIsMatch(p: seq<string>, t: seq<string>)
    requires First(p, t).Some?
    ensures IsMatch(p, t, First(p, t).value)
    decreases |p|, 0, 0
  {
    if p != [] {
      var b := First(p, t).value;
      if p[0] == "*" {
        FirstIsMatch(p[1..], t[1..]);
        assert b[1..] == First(p[1..], t[1..]).value;
      } else if p[0] == ">" {
        FirstFromIsMatch(p, t, 0);
      } else {
        FirstIsMatch(p[1..], t[1..]);
      }
    }
  }

  lemma {:induction false} FirstFromIsMatch(p: seq<string>, t: seq<string>, k: nat)
    requires p != [] && p[0] == ">" && k <= |t| + 1 && FirstFrom(p, t, k).Some?
    ensures IsMatch(p, t, FirstFrom(p, t, k).value)
    decreases |p| - 1, 1, |t| + 1 - k
  {
    var rest := First(p[1..], t[k..]);
    if rest.Some? {
      FirstIsMatch(p[1..], t[k..]);
      assert ([t[..k]] + rest.value)[1..] == rest.value;
    } else {
      FirstFromIsMatch(p, t, k + 1);
    }
  }

  /** Completeness: when some expansion is the topic, one is found. */
  lemma {:induction false} MatchIsFound(p: seq<string>, t: seq<string>, bindings: seq<seq<string>>)
    requires IsMatch(p, t, bindings)
    ensures First(p, t).Some?
    decreases |p|, 0, 0
  {
    if p != [] {
      if p[0] == "*" {
        assert t[1..] == Expand(p[1..], bindings[1..]);
        MatchIsFound(p[1..], t[1..], bindings[1..]);
      } else if p[0] == ">" {
        MatchIsFoundFrom(p, t, bindings, 0);
      } else {
        assert t[1..] == Expand(p[1..], bindings);
        MatchIsFound(p[1..], t[1..], bindings);
      }
    }
  }

  lemma {:induction false} MatchIsFoundFrom(p: seq<string>, t: seq<string>, bindings: seq<seq<string>>, k: nat)
    requires p != [] && p[0] == ">" && IsMatch(p, t, bindings) && k <= |bindings[0]|
    ensures k <= |t| && FirstFrom(p, t, k).Some?
    decreases |p| - 1, 1, |t| + 1 - k
  {
    if k == |bindings[0]| {
      assert t[k..] == Expand(p[1..], bindings[1..]);
      MatchIsFound(p[1..], t[k..], bindings[1..]);
    } else {
      MatchIsFoundFrom(p, t, bindings, k + 1);
    }
  }

  // ---------------------------------------------------------------- which match is found

  /** Up to some wildcard both bind the same number of segments, and there b binds fewer. */
  ghost predicate Shorter(b: seq<seq<string>>, c: seq<seq<string>>) {
    exists i :: 0 <= i < |b| && i < |c| && ShorterAt(b, c, i)
  }

  ghost predicate ShorterAt(b: seq<seq<string>>, c: seq<seq<string>>, i: nat)
    requires i < |b| && i < |c|
  {
    |b[i]| < |c[i]| && forall j :: 0 <= j < i ==> |b[j]| == |c[j]|
  }

  lemma {:induction false} ShorterBehind(x: seq<string>, y: seq<string>, b: seq<seq<string>>, c: seq<seq<string>>)
    requires |x| == |y| && Shorter(b, c)
    ensures Shorter([x] + b, [y] + c)
  {
    var i :| 0 <= i < |b| && i < |c| && ShorterAt(b, c, i);
    assert ShorterAt([x] + b, [y] + c, i + 1);
  }

  lemma BindingsSplit(b: seq<seq<string>>)
    requires b != []
    ensures b == [b[0]] + b[1..]
  {
  }

  /** Of all matches the one is found in which the first '>' takes as little as it can, then the second, and so on. */
  lemma {:induction false} FirstIsShortest(p: seq<string>, t: seq<string>, bindings: seq<seq<string>>)
    requires IsMatch(p, t, bindings)
    ensures First(p, t).Some? && (First(p, t).value == bindings || Shorter(First(p, t).value, bindings))
    decreases |p|, 0, 0
  {
    hide Shorter;
    MatchIsFound(p, t, bindings);
    if p != [] {
      if p[0] == "*" {
        assert t[1..] == Expand(p[1..], bindings[1..]);
        FirstIsShortest(p[1..], t[1..], bindings[1..]);
        BindingsSplit(bindings);
        assert bindings[0] == [t[0]];
        if Shorter(First(p[1..], t[1..]).value, bindings[1..]) {
          ShorterBehind([t[0]], [t[0]], First(p[1..], t[1..]).value, bindings[1..]);
        }
      } else if p[0] == ">" {
        FirstFromIsShortest(p, t, bindings, 0);
      } else {
        assert t[1..] == Expand(p[1..], bindings);
        FirstIsShortest(p[1..], t[1..], bindings);
      }
    }
  }

  lemma {:induction false} FirstFromIsShortest(p: seq<string>, t: seq<string>, bindings: seq<seq<string>>, k: nat)
    requires p != [] && p[0] == ">" && IsMatch(p, t, bindings) && k <= |bindings[0]|
    ensures k <= |t| && FirstFrom(p, t, k).Some?
    ensures var found := FirstFrom(p, t, k).value; found == bindings || Shorter(found, bindings)
    decreases |p| - 1, 1, |t| + 1 - k
  {
    hide Shorter;
    MatchIsFoundFrom(p, t, bindings, k);
    BindingsSplit(bindings);
    var rest := First(p[1..], t[k..]);
    if k == |bindings[0]| {
      assert t[k..] == Expand(p[1..], bindings[1..]);
      assert t[..k] == bindings[0];
      FirstIsShortest(p[1..], t[k..], bindings[1..]);
      if Shorter(rest.value, bindings[1..]) {
        ShorterBehind(t[..k], bindings[0], rest.value, bindings[1..]);
      }
    } else if rest.Some? {
      ShorterAtOnce([t[..k]] + rest.value, bindings);
    } else {
      FirstFromIsShortest(p, t, bindings, k + 1);
    }
  }

  lemma ShorterAtOnce(b: seq<seq<string>>, c: seq<seq<string>>)
    requires b != [] && c != [] && |b[0]| < |c[0]|
    ensures Shorter(b, c)
  {
    assert ShorterAt(b, c, 0);
  }

  // ---------------------------------------------------------------- substitutions

  function Join(segments: seq<string>): string {
    if segments == [] then ""
    else if |segments| == 1 then segments[0]
    else segments[0] + "/" + Join(segments[1..])
  }

  function Joins(bindings: seq<seq<string>>): (s: seq<string>)
    ensures |s| == |bindings|
  {
    seq(|bindings|, i requires 0 <= i < |bindings| => Join(bindings[i]))
  }

  /** The pattern with its wildcards replaced by the returned strings; an empty '>' leaves nothing behind. */
  ghost function Filled(p: seq<string>, subs: seq<string>): seq<string>
    requires |subs| == Wildcards(p)
  {
    if p == [] then []
    else if p[0] == "*" then [subs[0]] + Filled(p[1..], subs[1..])
    else if p[0] == ">" then (if subs[0] == "" then [] else [subs[0]]) + Filled(p[1..], subs[1..])
    else [p[0]] + Filled(p[1..], subs)
  }

  function Wildcards(p: seq<string>): nat {
    if p == [] then 0 else (if p[0] == "*" || p[0] == ">" then 1 else 0) + Wildcards(p[1..])
  }

  ghost predicate NonEmpty(segments: seq<string>) { forall i :: 0 <= i < |segments| ==> segments[i] != "" }

  lemma {:induction false} JoinNonEmpty(segments: seq<string>)
    requires NonEmpty(segments)
    ensures Join(segments) == "" <==> segments == []
  {
  }

  lemma {:induction false} JoinConcat(a: seq<string>, b: seq<string>)
    requires a != [] && b != []
    ensures Join(a + b) == Join(a) + "/" + Join(b)
  {
    if |a| > 1 {
      JoinConcat(a[1..], b);
      assert (a + b)[1..] == a[1..] + b;
    } else {
      assert (a + b)[1..] == b;
    }
  }

  /** A group of segments reads the same joined or apart. */
  lemma {:induction false} JoinGroup(group: seq<string>, a: seq<string>, b: seq<string>)
    requires group != [] && Join(a) == Join(b) && (a == [] <==> b == [])
    ensures Join([Join(group)] + a) == Join(group + b)
  {
    if a == [] {
      assert [Join(group)] + a == [Join(group)] && group + b == group;
    } else {
      JoinConcat([Join(group)], a);
      JoinConcat(group, b);
    }
  }

  /** Putting the substitutions back gives the name of the topic. */
  lemma {:induction false} SubstitutionsRebuild(p: seq<string>, t: seq<string>, bindings: seq<seq<string>>)
    requires IsMatch(p, t, bindings) && NonEmpty(t)
    ensures |Joins(bindings)| == Wildcards(p)
    ensures Join(Filled(p, Joins(bindings))) == Join(t) && (Filled(p, Joins(bindings)) == [] <==> t == [])
  {
    if p != [] {
      var rest := if p[0] == "*" || p[0] == ">" then bindings[1..] else bindings;
      var u := Expand(p[1..], rest);
      assert NonEmpty(u) by {
        assert t == (if p[0] == "*" || p[0] == ">" then bindings[0] else [p[0]]) + u;
        forall i | 0 <= i < |u| ensures u[i] != "" {
          assert u[i] == t[|t| - |u| + i];
        }
      }
      SubstitutionsRebuild(p[1..], u, rest);
      if p[0] == "*" || p[0] == ">" {
        assert Joins(bindings)[1..] == Joins(rest) && Joins(bindings)[0] == Join(bindings[0]);
        assert NonEmpty(bindings[0]) by {
          forall i | 0 <= i < |bindings[0]| ensures bindings[0][i] != "" {
            assert bindings[0][i] == t[i];
          }
        }
        JoinNonEmpty(bindings[0]);
        if bindings[0] == [] {
          assert t == u;
          assert Filled(p, Joins(bindings)) == Filled(p[1..], Joins(rest));
        } else {
          JoinGroup(bindings[0], Filled(p[1..], Joins(rest)), u);
        }
      } else {
        assert [Join([p[0]])] == [p[0]];
        JoinGroup([p[0]], Filled(p[1..], Joins(rest)), u);
      }
    }
  }

  // ---------------------------------------------------------------- the search

  /** The slice that the nested searches share. */
  class Substitutions {
    var items: seq<string>

    constructor ()
      ensures items == []
    {
      items := [];
    }

    /** A failed search may leave entries behind; its caller cuts them off. */
    method Search(p: seq<string>, t: seq<string>, start: nat, from: nat) returns (found: bool)
      requires start <= |p| && from <= |t|
      modifies this
      ensures found <==> First(p[start..], t[from..]).Some?
      ensures found ==> items == old(items) + Joins(First(p[start..], t[from..]).value)
      ensures old(items) <= items
      decreases |p| - start
    {
      var pi, ti := start, from;
      ghost var bound: seq<seq<string>> := [];
      AfterNothing(First(p[start..], t[from..]));
      while pi < |p|
        invariant start <= pi <= |p| && from <= ti <= |t|
        invariant items == old(items) + Joins(bound)
        invariant First(p[start..], t[from..]) == After(bound, First(p[pi..], t[ti..]))
      {
        var seg := p[pi];
        assert p[pi..][1..] == p[pi + 1..] && p[pi..][0] == seg;
        assert ti < |t| ==> t[ti..][1..] == t[ti + 1..] && t[ti..][0] == t[ti];
        if seg == "*" {
          if ti >= |t| {
            return false;
          }
          AfterOne(bound, [t[ti]], First(p[pi + 1..], t[ti + 1..]));
          items := items + [t[ti]];
          assert Joins(bound + [[t[ti]]]) == Joins(bound) + [t[ti]];
          bound := bound + [[t[ti]]];
          pi, ti := pi + 1, ti + 1;
        } else if seg == ">" {
          found := SearchRest(p, t, pi, ti);
          if found {
            JoinsConcat(bound, First(p[pi..], t[ti..]).value);
          }
          return found;
        } else {
          if ti >= |t| || seg != t[ti] {
            return false;
          }
          pi, ti := pi + 1, ti + 1;
        }
      }
      return ti == |t|;
    }

    /** The lengths a '>' can take, the shortest first. */
    method SearchRest(p: seq<string>, t: seq<string>, pi: nat, ti: nat) returns (found: bool)
      requires pi < |p| && ti <= |t| && p[pi] == ">"
      modifies this
      ensures found <==> First(p[pi..], t[ti..]).Some?
      ensures found ==> items == old(items) + Joins(First(p[pi..], t[ti..]).value)
      ensures old(items) <= items
      decreases |p| - pi, 0
    {
      var maxK, k := |t| - ti, 0;
      while k <= maxK
        invariant k <= maxK + 1 && items == old(items)
        invariant First(p[pi..], t[ti..]) == FirstFrom(p[pi..], t[ti..], k)
      {
        var saved := |items|;
        items := items + [if k > 0 then Join(t[ti..ti + k]) else ""];
        assert p[pi..][1..] == p[pi + 1..] && t[ti..][k..] == t[ti + k..] && t[ti..][..k] == t[ti..ti + k];
        var ok := Search(p, t, pi + 1, ti + k);
        if ok {
          JoinsConcat([t[ti..ti + k]], First(p[pi + 1..], t[ti + k..]).value);
          return true;
        }
        items := items[..saved];
        k := k + 1;
      }
      return false;
    }
  }

  ghost function After(bound: seq<seq<string>>, rest: Option<seq<seq<string>>>): Option<seq<seq<string>>> {
    if rest.Some? then Some(bound + rest.value) else None
  }

  lemma {:induction false} AfterNothing(rest: Option<seq<seq<string>>>)
    ensures After([], rest) == rest
  {
    if rest.Some? {
      assert [] + rest.value == rest.value;
    }
  }

  lemma {:induction false} AfterOne(bound: seq<seq<string>>, b: seq<string>, rest: Option<seq<seq<string>>>)
    ensures After(bound, Prepend(b, rest)) == After(bound + [b], rest)
  {
    if rest.Some? {
      assert bound + ([b] + rest.value) == (bound + [b]) + rest.value;
    }
  }

  lemma {:induction false} JoinsConcat(a: seq<seq<string>>, b: seq<seq<string>>)
    ensures Joins(a + b) == Joins(a) + Joins(b)
  {
  }

  /** True exactly when some expansion of the pattern is the topic; then the substitutions are those of one. */
  method MatchSegments(p: seq<string>, t: seq<string>) returns (matched: bool, subs: seq<string>)
    ensures matched <==> exists bindings :: IsMatch(p, t, bindings)
    ensures matched ==> exists bindings :: IsMatch(p, t, bindings) && subs == Joins(bindings)
    ensures matched && NonEmpty(t) ==> |subs| == Wildcards(p) && Join(Filled(p, subs)) == Join(t)
    ensures !matched ==> subs == []
  {
    var shared := new Substitutions();
    assert p[0..] == p && t[0..] == t;
    matched := shared.Search(p, t, 0, 0);
    forall bindings | IsMatch(p, t, bindings) ensures First(p, t).Some? {
      MatchIsFound(p, t, bindings);
    }
    if matched {
      FirstIsMatch(p, t);
      if NonEmpty(t) {
        SubstitutionsRebuild(p, t, First(p, t).value);
      }
      return true, shared.items;
    }
    return false, [];
  }
}
