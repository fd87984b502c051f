/** Scoped-tag parsing (`parseScopedTags`): tags of the form "scope:value" are grouped
    into a dictionary from scope to the list of its values. */
module ScopedTags {
  import opened Wrappers

  /** Number of occurrences of `c` in `s`. */
  function Count(s: string, c: char): nat
  {
    if s == [] then 0 else (if s[0] == c then 1 else 0) + Count(s[1..], c)
  }

  /** `String.prototype.split` with a one-character separator: the pieces between the
      separators, so one more piece than there are separators, and no piece holds one. */
  function Split(s: string, sep: char): (parts: seq<string>)
    ensures |parts| == Count(s, sep) + 1
    ensures forall i :: 0 <= i < |parts| ==> sep !in parts[i]
  {
    if s == [] then [""]
    else
      var rest := Split(s[1..], sep);
      if s[0] == sep then [""] + rest
      else [[s[0]] + rest[0]] + rest[1..]
  }

  /** `Array.prototype.join` with a one-character separator. */
  function Join(parts: seq<string>, sep: char): string
    requires |parts| >= 1
  {
    if |parts| == 1 then parts[0] else parts[0] + [sep] + Join(parts[1..], sep)
  }

  /** Splitting loses nothing: joining the pieces gives the string back. */
  lemma {:induction false} JoinSplit(s: string, sep: char)
    ensures Join(Split(s, sep), sep) == s
  {
    if s != [] {
      JoinSplit(s[1..], sep);
      var rest := Split(s[1..], sep);
      if s[0] != sep {
        if |rest| == 1 {
          assert s == [s[0]] + rest[0];
        } else {
          assert rest == [rest[0]] + rest[1..];
          assert Join(rest, sep) == rest[0] + [sep] + Join(rest[1..], sep);
          assert s == [s[0]] + s[1..];
        }
      } else {
        assert s == [sep] + s[1..];
      }
    }
  }

  /** A piece without the separator, followed by the separator, splits off as one part. */
  lemma {:induction false} SplitAfterPiece(w: string, sep: char, t: string)
    requires sep !in w
    ensures Split(w + [sep] + t, sep) == [w] + Split(t, sep)
  {
    if w != [] {
      SplitAfterPiece(w[1..], sep, t);
      assert (w + [sep] + t)[1..] == w[1..] + [sep] + t;
      assert [w[0]] + w[1..] == w;
    } else {
      assert [] + [sep] + t == [sep] + t;
      assert ([sep] + t)[1..] == t;
    }
  }

  /** A string without the separator is a single piece. */
  lemma {:induction false} SplitNoSeparator(w: string, sep: char)
    requires sep !in w
    ensures Split(w, sep) == [w]
  {
    if w != [] {
      SplitNoSeparator(w[1..], sep);
      assert [w[0]] + w[1..] == w;
    }
  }

  /** Joining pieces that hold no separator and splitting again gives the pieces back. */
  lemma {:induction false} SplitJoin(parts: seq<string>, sep: char)
    requires |parts| >= 1
    requires forall i :: 0 <= i < |parts| ==> sep !in parts[i]
    ensures Split(Join(parts, sep), sep) == parts
  {
    if |parts| == 1 {
      SplitNoSeparator(parts[0], sep);
    } else {
      SplitJoin(parts[1..], sep);
      SplitAfterPiece(parts[0], sep, Join(parts[1..], sep));
      assert [parts[0]] + parts[1..] == parts;
    }
  }

  /** One tag as the source reads it: its (scope, value) pair when splitting on ':'
      gives exactly two parts, and nothing otherwise. */
  function ParseTag(tag: string): Option<(string, string)>
  {
    var parts := Split(tag, ':');
    if |parts| == 2 then Some((parts[0], parts[1])) else None
  }

  /** A tag is kept exactly when it holds exactly one colon. */
  lemma TagKeptIffOneColon(tag: string)
    ensures ParseTag(tag).Some? <==> Count(tag, ':') == 1
  {
  }

  /** A tag parses to (scope, value) exactly when it is scope ':' value with no colon on
      either side; an empty scope or an empty value is accepted. */
  lemma TagParsesIff(tag: string, scope: string, value: string)
    ensures ParseTag(tag) == Some((scope, value))
        <==> tag == scope + ":" + value && ':' !in scope && ':' !in value
  {
    if ParseTag(tag) == Some((scope, value)) {
      var parts := Split(tag, ':');
      JoinSplit(tag, ':');
      assert parts == [scope, value];
      assert Join(parts, ':') == scope + [':'] + Join(parts[1..], ':');
      assert parts[1..] == [value];
    }
    if tag == scope + ":" + value && ':' !in scope && ':' !in value {
      var parts := [scope, value];
      assert parts[1..] == [value];
      assert Join(parts, ':') == tag;
      SplitJoin(parts, ':');
    }
  }

  /** The (scope, value) pairs of the kept tags, in input order. */
  function KeptTags(tags: seq<string>): seq<(string, string)>
  {
    if tags == [] then []
    else
      var last := ParseTag(tags[|tags| - 1]);
      KeptTags(tags[..|tags| - 1]) + (if last.Some? then [last.value] else [])
  }

  /** The scopes that occur among the kept tags. */
  function ScopesOf(tags: seq<string>): set<string>
  {
    set p | p in KeptTags(tags) :: p.0
  }

  /** The values of the kept tags whose scope is `scope`, in input order. */
  function ValuesFor(tags: seq<string>, scope: string): seq<string>
  {
    if tags == [] then []
    else
      var last := ParseTag(tags[|tags| - 1]);
      ValuesFor(tags[..|tags| - 1], scope)
        + (if last.Some? && last.value.0 == scope then [last.value.1] else [])
  }

  /** A scope has values exactly when some kept tag carries it. */
  lemma {:induction false} ValuesForNonEmptyIff(tags: seq<string>, scope: string)
    ensures ValuesFor(tags, scope) != [] <==> scope in ScopesOf(tags)
  {
    if tags != [] {
      var init := tags[..|tags| - 1];
      ValuesForNonEmptyIff(init, scope);
      var last := ParseTag(tags[|tags| - 1]);
      if last.Some? {
        assert KeptTags(tags) == KeptTags(init) + [last.value];
        assert last.value in KeptTags(tags);
      }
      if scope in ScopesOf(tags) {
        var p :| p in KeptTags(tags) && p.0 == scope;
        if p !in KeptTags(init) {
          assert p == last.value;
        }
      }
    }
  }

  /** Total number of values stored in a scope dictionary. */
  ghost function TotalLength(m: map<string, seq<string>>): nat
    decreases |m|
  {
    if m == map[] then 0
    else
      var k :| k in m;
      |m[k]| + TotalLength(m - {k})
  }

  /** TotalLength does not depend on which key is taken out first. */
  lemma {:induction false} TotalLengthRemove(m: map<string, seq<string>>, k: string)
    requires k in m
    ensures TotalLength(m) == |m[k]| + TotalLength(m - {k})
    decreases |m|
  {
    assert exists j :: j in m && TotalLength(m) == |m[j]| + TotalLength(m - {j});
    var j :| j in m && TotalLength(m) == |m[j]| + TotalLength(m - {j});
    if j != k {
      var mj, mk := m - {j}, m - {k};
      assert k in mj && j in mk;
      assert |mj| < |m| by { assert mj.Keys == m.Keys - {j}; }
      TotalLengthRemove(mj, k);
      TotalLengthRemove(mk, j);
      assert mj - {k} == mk - {j};
    }
  }

  /** Storing a list under a key changes the total by the old and new list lengths. */
  lemma TotalLengthUpdate(m: map<string, seq<string>>, k: string, values: seq<string>)
    ensures TotalLength(m[k := values]) == TotalLength(m) - (if k in m then |m[k]| else 0) + |values|
  {
    TotalLengthRemove(m[k := values], k);
    assert m[k := values] - {k} == m - {k};
    if k in m {
      TotalLengthRemove(m, k);
    } else {
      assert m - {k} == m;
    }
  }

  /** What one more tag adds to the kept pairs, their scopes and each scope's values. */
  lemma ParseOneMore(done: seq<string>, tag: string)
    ensures var last := ParseTag(tag);
      && KeptTags(done + [tag]) == KeptTags(done) + (if last.Some? then [last.value] else [])
      && ScopesOf(done + [tag]) == ScopesOf(done) + (if last.Some? then {last.value.0} else {})
      && forall scope :: ValuesFor(done + [tag], scope)
           == ValuesFor(done, scope) + (if last.Some? && last.value.0 == scope then [last.value.1] else [])
  {
    assert (done + [tag])[..|done|] == done;
  }

  /** Reference definition of the result: every scope of a kept tag, mapped to the values
      carried by that scope, in input order. */
  ghost function Grouping(tags: seq<string>): map<string, seq<string>>
  {
    map scope | scope in ScopesOf(tags) :: ValuesFor(tags, scope)
  }

  /** A dropped tag leaves the grouping alone. */
  lemma GroupingDropped(done: seq<string>, tag: string)
    requires ParseTag(tag).None?
    ensures Grouping(done + [tag]) == Grouping(done)
  {
    ParseOneMore(done, tag);
    var g, g' := Grouping(done), Grouping(done + [tag]);
    assert g'.Keys == g.Keys;
    forall s | s in g' ensures g'[s] == g[s] {
      assert ValuesFor(done + [tag], s) == ValuesFor(done, s);
    }
  }

  /** A kept tag appends its value to its scope's list, which is created when the scope
      is new. */
  lemma GroupingKept(done: seq<string>, tag: string, scope: string, value: string)
    requires ParseTag(tag) == Some((scope, value))
    ensures var g := Grouping(done);
      Grouping(done + [tag]) == g[scope := (if scope in g then g[scope] else []) + [value]]
  {
    ParseOneMore(done, tag);
    ValuesForNonEmptyIff(done, scope);
    var g, g' := Grouping(done), Grouping(done + [tag]);
    var expected := g[scope := (if scope in g then g[scope] else []) + [value]];
    assert g'.Keys == expected.Keys;
    forall s | s in g' ensures g'[s] == expected[s] {
      if s != scope {
        assert s in g;
      }
    }
  }

  /** The list lengths of the grouping add up to the number of kept tags. */
  lemma {:induction false} GroupingTotal(tags: seq<string>)
    ensures TotalLength(Grouping(tags)) == |KeptTags(tags)|
  {
    if tags == [] {
      assert Grouping(tags) == map[];
    } else {
      var init, last := tags[..|tags| - 1], tags[|tags| - 1];
      assert tags == init + [last];
      GroupingTotal(init);
      ParseOneMore(init, last);
      if ParseTag(last).None? {
        GroupingDropped(init, last);
      } else {
        var (scope, value) := ParseTag(last).value;
        GroupingKept(init, last, scope, value);
        var g := Grouping(init);
        TotalLengthUpdate(g, scope, (if scope in g then g[scope] else []) + [value]);
      }
    }
  }

  /** Every list of the grouping is non-empty. */
  lemma GroupingNonEmpty(tags: seq<string>)
    ensures forall scope :: scope in Grouping(tags) ==> Grouping(tags)[scope] != []
  {
    forall scope | scope in Grouping(tags)
      ensures Grouping(tags)[scope] != []
    {
      ValuesForNonEmptyIff(tags, scope);
    }
  }

  /** `parseScopedTags`: walks the tags in order, creates a scope's list on first sight
      and appends each kept tag's value to it. */
  method ParseScopedTags(tags: seq<string>) returns (scoped: map<string, seq<string>>)
    ensures scoped.Keys == ScopesOf(tags)
    ensures forall scope :: scope in scoped ==> scoped[scope] == ValuesFor(tags, scope)
    ensures forall scope :: scope in scoped ==> scoped[scope] != []
    ensures TotalLength(scoped) == |KeptTags(tags)|
  {
    scoped := map[];
    for i := 0 to |tags|
      invariant scoped == Grouping(tags[..i])
    {
      assert tags[..i + 1] == tags[..i] + [tags[i]];
      var parts := Split(tags[i], ':');
      if |parts| == 2 {
        var scope, value := parts[0], parts[1];
        GroupingKept(tags[..i], tags[i], scope, value);
        if scope !in scoped {
          scoped := scoped[scope := []];
        }
        scoped := scoped[scope := scoped[scope] + [value]];
      } else {
        GroupingDropped(tags[..i], tags[i]);
      }
    }
    assert tags[..|tags|] == tags;
    GroupingTotal(tags);
    GroupingNonEmpty(tags);
  }

  /** Names every plain object inherits from `Object.prototype`. Looking one of them up on
      the source's `{}` accumulator finds an inherited, truthy value instead of a list. */
  const InheritedMembers: set<string> := {
    "constructor", "__proto__", "__defineGetter__", "__defineSetter__", "__lookupGetter__",
    "__lookupSetter__", "hasOwnProperty", "isPrototypeOf", "propertyIsEnumerable",
    "toString", "toLocaleString", "valueOf" }

  predicate IsInherited(name: string)
  {
    name in InheritedMembers
  }

  /** Some kept tag has a scope that names an inherited member. */
  predicate HitsInherited(tags: seq<string>)
  {
    exists scope :: scope in ScopesOf(tags) && IsInherited(scope)
  }

  /** The scopes of a prefix of the tags are scopes of all the tags. */
  lemma {:induction false} ScopesOfPrefix(tags: seq<string>, n: int)
    requires 0 <= n <= |tags|
    ensures ScopesOf(tags[..n]) <= ScopesOf(tags)
    decreases |tags| - n
  {
    if n == |tags| {
      assert tags[..n] == tags;
    } else {
      ScopesOfPrefix(tags, n + 1);
      ParseOneMore(tags[..n], tags[n]);
      assert tags[..n + 1] == tags[..n] + [tags[n]];
    }
  }

  /** The scope of any kept tag is among the scopes of the tags. */
  lemma ScopeOfKeptTag(tags: seq<string>, i: int, scope: string, value: string)
    requires 0 <= i < |tags| && ParseTag(tags[i]) == Some((scope, value))
    ensures scope in ScopesOf(tags)
  {
    ParseOneMore(tags[..i], tags[i]);
    assert tags[..i + 1] == tags[..i] + [tags[i]];
    ScopesOfPrefix(tags, i + 1);
  }

  /** `parseScopedTags` as written, on a plain object: a kept tag whose scope is not yet an
      own key but names an inherited member skips the list creation (the inherited value
      is truthy) and then calls `push` on a value that has none, which throws (None here).
      Otherwise the result is the grouping. */
  method ParseScopedTagsAsWritten(tags: seq<string>) returns (r: Option<map<string, seq<string>>>)
    ensures r.None? <==> HitsInherited(tags)
    ensures r.Some? ==> r.value == Grouping(tags)
  {
    var scoped := map[];
    for i := 0 to |tags|
      invariant scoped == Grouping(tags[..i])
      invariant forall scope :: scope in scoped ==> !IsInherited(scope)
    {
      assert tags[..i + 1] == tags[..i] + [tags[i]];
      var parts := Split(tags[i], ':');
      if |parts| == 2 {
        var scope, value := parts[0], parts[1];
        GroupingKept(tags[..i], tags[i], scope, value);
        if scope !in scoped {
          if IsInherited(scope) {
            ScopeOfKeptTag(tags, i, scope, value);
            return None;
          }
          scoped := scoped[scope := []];
        }
        scoped := scoped[scope := scoped[scope] + [value]];
      } else {
        GroupingDropped(tags[..i], tags[i]);
      }
    }
    assert tags[..|tags|] == tags;
    return Some(scoped);
  }

  /** A single kept tag groups into a one-entry dictionary. */
  lemma SingleTagGrouping(tag: string, scope: string, value: string)
    requires ParseTag(tag) == Some((scope, value))
    ensures ScopesOf([tag]) == {scope}
    ensures Grouping([tag]) == map[scope := [value]]
  {
    var none: seq<string> := [];
    assert none + [tag] == [tag];
    assert KeptTags(none) == [] && ScopesOf(none) == {};
    assert Grouping(none) == map[];
    GroupingKept(none, tag, scope, value);
    ParseOneMore(none, tag);
    assert scope !in Grouping(none);
    assert [] + [value] == [value];
  }

  /** A single well-formed tag whose scope names an inherited member, such as
      "constructor:x", makes the code as written throw, while the grouping it evidently
      intends maps that scope to the one value. */
  lemma InheritedScopeThrows(scope: string, value: string)
    requires IsInherited(scope) && ':' !in scope && ':' !in value
    ensures HitsInherited([scope + ":" + value])
    ensures Grouping([scope + ":" + value]) == map[scope := [value]]
  {
    TagParsesIff(scope + ":" + value, scope, value);
    SingleTagGrouping(scope + ":" + value, scope, value);
    assert scope in ScopesOf([scope + ":" + value]);
  }

  /** A tag without a colon and a tag with two colons are both dropped. */
  lemma DroppedTagExamples()
    ensures ParseTag("noColon") == None && ParseTag("x:y:z") == None
  {
    SplitNoSeparator("noColon", ':');
    var parts := ["x", "y", "z"];
    assert parts[1..] == ["y", "z"] && parts[1..][1..] == ["z"];
    assert Join(parts, ':') == "x:y:z";
    SplitJoin(parts, ':');
  }

  /** An empty scope or an empty value still makes a kept tag. */
  lemma EmptyPartsKeptExamples()
    ensures ParseTag(":v") == Some(("", "v")) && ParseTag("a:") == Some(("a", ""))
  {
    TagParsesIff(":v", "", "v");
    TagParsesIff("a:", "a", "");
  }

}
