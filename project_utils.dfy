/** Recovery of a displayable title, description or hashtag list from a stored
    project field that an AI back end wrote either as plain text or as JSON of
    varying shape. Input that looks like JSON is searched for a value under a
    list of known keys, at most `MaxDepth` levels below the root; when nothing
    is found the caller's fallback is returned, never the JSON text itself. */
module ProjectUtils {
  import opened Wrappers
  import opened JsStrings
  import opened JsonValue
  import Format

  /** What the recovery code takes from the JavaScript runtime: `JSON.parse`
      (`None` where it throws) and `String.prototype.toLowerCase`. */
  datatype Runtime = Runtime(jsonParse: string -> Option<Json>, toLowerCase: string -> string)

  /** Title keys checked first at each level, in this order. */
  const PriorityKeys: seq<string> :=
    ["titulo", "tittle", "title", "projectTitle", "videoTitle", "scriptTitle", "id_da_semana", "tema_dia"]
  /** Title keys checked at a level only when no priority key gave a title. */
  const FallbackKeys: seq<string> := ["name", "topic", "subject"]
  const TitleKeys: seq<string> := PriorityKeys + FallbackKeys
  const DescriptionKeys: seq<string> :=
    ["description", "generatedDescription", "desc", "generated_description", "resumo"]
  const HashtagKeys: seq<string> :=
    ["hashtags", "generated_shorts_hashtags", "tags", "keywords", "generated_tiktok_hashtags"]
  /** The root is searched at depth 0; depth `MaxDepth` is the last one searched. */
  const MaxDepth: nat := 3
  /** Plain text without a comma shorter than this is taken as a single tag. */
  const ShortTagLimit: nat := 50
  /** The default fallback of `extractProjectTitle`. */
  const UntitledProject: string := "Untitled Project"
  /** Lower-case placeholder phrases that a real title never contains. */
  const Placeholders: seq<string> := ["untitled project", "projeto sem título", "sem título"]
  /** U+23F3 HOURGLASS WITH FLOWING SAND, the "still generating" marker. */
  const PendingMarker: char := '\U{23F3}'

  // ---------------------------------------------------------------------------
  // The placeholder filter

  /** `isValidTitle`: a non-empty string whose lower-cased, trimmed form is not
      empty, contains none of the placeholder phrases and does not start with
      the pending marker. */
  predicate IsValidTitle(rt: Runtime, title: string) {
    && title != ""
    && var lower := Trim(rt.toLowerCase(title));
    && |lower| > 0
    && !Contains(lower, "untitled project")
    && !Contains(lower, "projeto sem título")
    && !Contains(lower, "sem título")
    && !StartsWith(lower, [PendingMarker])
  }

  /** A title whose lower-cased form contains a placeholder phrase anywhere,
      whatever surrounds it, is rejected. */
  lemma PlaceholderRejected(rt: Runtime, title: string, pre: string, phrase: string, post: string)
    requires phrase in Placeholders
    requires rt.toLowerCase(title) == pre + phrase + post
    ensures !IsValidTitle(rt, title)
  {
    assert phrase[0] in "ups" && phrase[|phrase| - 1] in "to";
    TrimKeepsInnerText(pre, phrase, post);
  }

  /** A title whose lower-cased form starts, after whitespace, with the pending
      marker is rejected. */
  lemma PendingRejected(rt: Runtime, title: string, blank: string, rest: string)
    requires AllWhitespace(blank)
    requires rt.toLowerCase(title) == blank + [PendingMarker] + rest
    ensures !IsValidTitle(rt, title)
  {
    var marked := [PendingMarker] + rest;
    assert blank + [PendingMarker] + rest == blank + marked;
    TrimSkipsBlank(blank, marked);
  }

  /** A title whose lower-cased form is only whitespace is never valid. */
  lemma BlankTitleInvalid(rt: Runtime, title: string)
    requires AllWhitespace(rt.toLowerCase(title))
    ensures !IsValidTitle(rt, title)
  {
    TrimAllWhitespace(rt.toLowerCase(title));
  }

  // ---------------------------------------------------------------------------
  // The depth-limited search shared by findTitleDeep and findValueDeep

  /** The condition of the key loops of both searches: `obj[key]` is truthy
      and passes `test`, which for titles is `typeof obj[key] === 'string' &&
      isValidTitle(obj[key])` and for other values always holds. */
  predicate Passes(v: Json, key: string, test: Json -> bool) {
    TruthyAt(v, key) && test(Get(v, key).value)
  }

  /** A `for (const key of keys)` loop that returns `obj[key]` for the first
      key, in list order, whose value passes. */
  function FirstPassing(v: Json, keys: seq<string>, test: Json -> bool): (r: Option<Json>)
    ensures r.Some? ==> Truthy(r.value) && test(r.value)
  {
    if keys == [] then None
    else if Passes(v, keys[0], test) then Get(v, keys[0])
    else FirstPassing(v, keys[1..], test)
  }

  /** The loop returns nothing exactly when no key passes, and otherwise the
      value under a passing key all of whose predecessors fail. */
  lemma {:induction false} FirstPassingFound(v: Json, keys: seq<string>, test: Json -> bool)
    ensures FirstPassing(v, keys, test).None? <==> forall k :: 0 <= k < |keys| ==> !Passes(v, keys[k], test)
    ensures FirstPassing(v, keys, test).Some? ==>
      exists k :: && 0 <= k < |keys| && Get(v, keys[k]) == FirstPassing(v, keys, test)
                  && forall m :: 0 <= m < k ==> !Passes(v, keys[m], test)
  {
    if keys != [] && !Passes(v, keys[0], test) {
      FirstPassingFound(v, keys[1..], test);
      assert forall k :: 1 <= k < |keys| ==> keys[k] == keys[1..][k - 1];
      if FirstPassing(v, keys, test).Some? {
        var k :| && 0 <= k < |keys[1..]| && Get(v, keys[1..][k]) == FirstPassing(v, keys, test)
                 && forall m :: 0 <= m < k ==> !Passes(v, keys[1..][m], test);
        assert Get(v, keys[k + 1]) == FirstPassing(v, keys, test);
      }
    }
  }

  /** The first passing key is the one whose predecessors all fail. */
  lemma {:induction false} FirstPassingIs(v: Json, keys: seq<string>, test: Json -> bool, k: nat)
    requires k < |keys| && Passes(v, keys[k], test)
    requires forall m :: 0 <= m < k ==> !Passes(v, keys[m], test)
    ensures FirstPassing(v, keys, test) == Get(v, keys[k])
  {
    if k > 0 {
      assert forall m :: 0 <= m < k - 1 ==> keys[1..][m] == keys[m + 1];
      FirstPassingIs(v, keys[1..], test, k - 1);
    }
  }

  /** Reference definition of what a search that starts at `depth` can reach:
      a passing value under one of `keys` in `v` or, down to level `MaxDepth`,
      in an object or array below it. */
  ghost predicate FoundWithin(v: Json, keys: seq<string>, test: Json -> bool, x: Json, depth: nat)
    decreases MaxDepth - depth
  {
    && depth <= MaxDepth
    && Truthy(v)
    && IsTypeofObject(v)
    && (|| (exists k :: 0 <= k < |keys| && Passes(v, keys[k], test) && Get(v, keys[k]) == Some(x))
        || exists i :: 0 <= i < |Children(v)| && FoundWithin(Children(v)[i], keys, test, x, depth + 1))
  }

  /** With no key passing at `v`, what is reached from `v` is what is reached
      through its children: a value reached through some child is reached
      from `v`, and when nothing is reached through any child, nothing is
      reached from `v`. */
  lemma ChildrenDecide(v: Json, keys: seq<string>, test: Json -> bool, depth: nat, below: nat, r: Option<Json>)
    requires Truthy(v) && IsTypeofObject(v) && depth <= MaxDepth && below == depth + 1
    requires forall k :: 0 <= k < |keys| ==> !Passes(v, keys[k], test)
    requires r.Some? ==> exists i :: 0 <= i < |Children(v)| && FoundWithin(Children(v)[i], keys, test, r.value, below)
    requires r.None? ==> forall i, x :: 0 <= i < |Children(v)| ==> !FoundWithin(Children(v)[i], keys, test, x, below)
    ensures r.Some? ==> FoundWithin(v, keys, test, r.value, depth)
    ensures r.None? ==> forall x :: !FoundWithin(v, keys, test, x, depth)
  {
  }

  /** The search started at `depth`: nothing unless `v` is a truthy
      `typeof 'object'` value no deeper than `MaxDepth`; else the value under
      the first key of `primary` that passes, else under the first key of
      `secondary` that passes, else the first value found in the children,
      searched in enumeration order. */
  function SearchDeep(v: Json, primary: seq<string>, secondary: seq<string>, test: Json -> bool, depth: nat): (r: Option<Json>)
    ensures r.Some? ==> Truthy(r.value) && test(r.value)
    ensures depth > MaxDepth || !IsTypeofObject(v) ==> r.None?
    decreases MaxDepth + 1 - depth, 0
  {
    if !Truthy(v) || !IsTypeofObject(v) || depth > MaxDepth then None
    else
      var first := FirstPassing(v, primary, test);
      if first.Some? then first
      else
        var second := FirstPassing(v, secondary, test);
        if second.Some? then second
        else SearchChildren(Children(v), primary, secondary, test, depth + 1)
  }

  /** The `for (const key in obj)` loop over the children, which sit at
      `depth`: only `typeof 'object'` children are searched, and since a
      value found is truthy, `if (found)` ends the loop at the first one. */
  function SearchChildren(kids: seq<Json>, primary: seq<string>, secondary: seq<string>, test: Json -> bool, depth: nat): (r: Option<Json>)
    ensures r.Some? ==> Truthy(r.value) && test(r.value)
    ensures depth > MaxDepth ==> r.None?
    decreases MaxDepth + 1 - depth, 1, |kids|
  {
    if kids == [] then None
    else
      var found := if IsTypeofObject(kids[0]) then SearchDeep(kids[0], primary, secondary, test, depth) else None;
      if found.Some? then found else SearchChildren(kids[1..], primary, secondary, test, depth)
  }

  /** The search is sound and complete for the reference: what it returns is
      reachable, and it returns nothing only when nothing is. */
  lemma {:induction false} SearchDeepExact(v: Json, primary: seq<string>, secondary: seq<string>, test: Json -> bool, depth: nat)
    ensures SearchDeep(v, primary, secondary, test, depth).Some? ==>
      FoundWithin(v, primary + secondary, test, SearchDeep(v, primary, secondary, test, depth).value, depth)
    ensures SearchDeep(v, primary, secondary, test, depth).None? ==>
      forall x :: !FoundWithin(v, primary + secondary, test, x, depth)
    decreases MaxDepth + 1 - depth, 0
  {
    if Truthy(v) && IsTypeofObject(v) && depth <= MaxDepth {
      if FirstPassing(v, primary, test).Some? || FirstPassing(v, secondary, test).Some? {
        KeyFoundHere(v, primary, secondary, test, depth);
      } else {
        NoKeyPassesHere(v, primary, secondary, test);
        SearchChildrenExact(Children(v), primary, secondary, test, depth + 1);
        ChildrenDecide(v, primary + secondary, test, depth, depth + 1, SearchChildren(Children(v), primary, secondary, test, depth + 1));
      }
    }
  }

  /** A value the key loops return is reachable. */
  lemma KeyFoundHere(v: Json, primary: seq<string>, secondary: seq<string>, test: Json -> bool, depth: nat)
    requires Truthy(v) && IsTypeofObject(v) && depth <= MaxDepth
    requires FirstPassing(v, primary, test).Some? || FirstPassing(v, secondary, test).Some?
    ensures SearchDeep(v, primary, secondary, test, depth).Some?
    ensures FoundWithin(v, primary + secondary, test, SearchDeep(v, primary, secondary, test, depth).value, depth)
  {
    var keys := primary + secondary;
    var first := FirstPassing(v, primary, test);
    FirstPassingFound(v, primary, test);
    FirstPassingFound(v, secondary, test);
    if first.Some? {
      var k :| 0 <= k < |primary| && Get(v, primary[k]) == first;
      assert keys[k] == primary[k];
    } else {
      var second := FirstPassing(v, secondary, test);
      var k :| 0 <= k < |secondary| && Get(v, secondary[k]) == second;
      assert keys[|primary| + k] == secondary[k];
    }
  }

  /** When neither key loop returns, no key of either list passes. */
  lemma NoKeyPassesHere(v: Json, primary: seq<string>, secondary: seq<string>, test: Json -> bool)
    requires FirstPassing(v, primary, test).None? && FirstPassing(v, secondary, test).None?
    ensures forall k :: 0 <= k < |primary + secondary| ==> !Passes(v, (primary + secondary)[k], test)
  {
    var keys := primary + secondary;
    FirstPassingFound(v, primary, test);
    FirstPassingFound(v, secondary, test);
    forall k | 0 <= k < |keys|
      ensures !Passes(v, keys[k], test)
    {
      if k < |primary| {
        assert keys[k] == primary[k];
      } else {
        assert keys[k] == secondary[k - |primary|];
      }
    }
  }

  lemma {:induction false} SearchChildrenExact(kids: seq<Json>, primary: seq<string>, secondary: seq<string>, test: Json -> bool, depth: nat)
    ensures SearchChildren(kids, primary, secondary, test, depth).Some? ==>
      exists i :: 0 <= i < |kids| && FoundWithin(kids[i], primary + secondary, test, SearchChildren(kids, primary, secondary, test, depth).value, depth)
    ensures SearchChildren(kids, primary, secondary, test, depth).None? ==>
      forall i, x :: 0 <= i < |kids| ==> !FoundWithin(kids[i], primary + secondary, test, x, depth)
    decreases MaxDepth + 1 - depth, 1, |kids|
  {
    if kids != [] {
      SearchDeepExact(kids[0], primary, secondary, test, depth);
      SearchChildrenExact(kids[1..], primary, secondary, test, depth);
      assert forall i :: 1 <= i < |kids| ==> kids[i] == kids[1..][i - 1];
    }
  }

  /** At one level the first passing key of `primary` wins over every key of
      `secondary` and over everything deeper. */
  lemma PrimaryKeyWins(v: Json, primary: seq<string>, secondary: seq<string>, test: Json -> bool, depth: nat, k: nat)
    requires depth <= MaxDepth && (v.Arr? || v.Obj?)
    requires k < |primary| && Passes(v, primary[k], test)
    requires forall m :: 0 <= m < k ==> !Passes(v, primary[m], test)
    ensures SearchDeep(v, primary, secondary, test, depth) == Get(v, primary[k])
  {
    FirstPassingIs(v, primary, test, k);
  }

  /** With no key of `primary` passing at a level, the first passing key of
      `secondary` wins over everything deeper. */
  lemma SecondaryKeyWins(v: Json, primary: seq<string>, secondary: seq<string>, test: Json -> bool, depth: nat, k: nat)
    requires depth <= MaxDepth && (v.Arr? || v.Obj?)
    requires forall m :: 0 <= m < |primary| ==> !Passes(v, primary[m], test)
    requires k < |secondary| && Passes(v, secondary[k], test)
    requires forall m :: 0 <= m < k ==> !Passes(v, secondary[m], test)
    ensures SearchDeep(v, primary, secondary, test, depth) == Get(v, secondary[k])
  {
    FirstPassingFound(v, primary, test);
    FirstPassingIs(v, secondary, test, k);
  }

  /** With no key passing at a level, the search moves on to the children. */
  lemma NoKeyFallsThrough(v: Json, primary: seq<string>, secondary: seq<string>, test: Json -> bool, depth: nat)
    requires depth <= MaxDepth && (v.Arr? || v.Obj?)
    requires forall m :: 0 <= m < |primary| ==> !Passes(v, primary[m], test)
    requires forall m :: 0 <= m < |secondary| ==> !Passes(v, secondary[m], test)
    ensures SearchDeep(v, primary, secondary, test, depth) == SearchChildren(Children(v), primary, secondary, test, depth + 1)
  {
    FirstPassingFound(v, primary, test);
    FirstPassingFound(v, secondary, test);
  }

  /** Children are searched depth-first in enumeration order: the first child
      in which something is found gives the result. */
  lemma FirstChildWins(kids: seq<Json>, primary: seq<string>, secondary: seq<string>, test: Json -> bool, depth: nat, i: nat)
    requires i < |kids| && SearchDeep(kids[i], primary, secondary, test, depth).Some?
    requires forall m :: 0 <= m < i ==> SearchDeep(kids[m], primary, secondary, test, depth).None?
    ensures SearchChildren(kids, primary, secondary, test, depth) == SearchDeep(kids[i], primary, secondary, test, depth)
  {
    var j := i;
    assert kids[j..][0] == kids[i];
    while j > 0
      invariant 0 <= j <= i
      invariant SearchChildren(kids[j..], primary, secondary, test, depth) == SearchDeep(kids[i], primary, secondary, test, depth)
    {
      j := j - 1;
      assert kids[j..][0] == kids[j] && kids[j..][1..] == kids[j + 1..];
      assert SearchDeep(kids[j], primary, secondary, test, depth).None?;
    }
    assert kids[0..] == kids;
  }

  /** An object none of whose members under one of `keys` is truthy and
      passes has no passing key. */
  lemma NoMemberPasses(v: Json, keys: seq<string>, test: Json -> bool)
    requires v.Obj?
    requires forall i :: 0 <= i < |v.members| ==>
      v.members[i].0 !in keys || !Truthy(v.members[i].1) || !test(v.members[i].1)
    ensures forall k :: 0 <= k < |keys| ==> !Passes(v, keys[k], test)
  {
    forall k | 0 <= k < |keys|
      ensures !Passes(v, keys[k], test)
    {
      var r := Get(v, keys[k]);
      if r.Some? {
        var i :| 0 <= i < |v.members| && v.members[i] == (keys[k], r.value);
      }
    }
  }

  /** `x` under `key` in an object nested `n` levels below the root, each
      level a single "data" member. */
  function Nested(n: nat, key: string, x: Json): (r: Json)
    ensures r.Obj?
  {
    if n == 0 then Obj([(key, x)]) else Obj([("data", Nested(n - 1, key, x))])
  }

  /** An object with a single member that passes under a key of `primary`
      gives that member's value. */
  lemma SingleMemberFound(primary: seq<string>, secondary: seq<string>, test: Json -> bool, key: string, x: Json, depth: nat)
    requires depth <= MaxDepth && key in primary && Truthy(x) && test(x)
    ensures SearchDeep(Obj([(key, x)]), primary, secondary, test, depth) == Some(x)
  {
    var v := Obj([(key, x)]);
    var k :| 0 <= k < |primary| && primary[k] == key;
    assert Passes(v, primary[k], test);
    FirstPassingFound(v, primary, test);
  }

  /** An object with a single member that does not pass and is not searched
      into holds nothing. */
  lemma SingleMemberRejected(primary: seq<string>, secondary: seq<string>, test: Json -> bool, key: string, x: Json, depth: nat)
    requires depth <= MaxDepth && !test(x) && !IsTypeofObject(x)
    ensures SearchDeep(Obj([(key, x)]), primary, secondary, test, depth).None?
  {
    var v := Obj([(key, x)]);
    NoMemberPasses(v, primary, test);
    NoMemberPasses(v, secondary, test);
    NoKeyFallsThrough(v, primary, secondary, test, depth);
    assert Children(v) == [x];
  }

  /** An object whose single member sits under a key neither list holds is
      searched through: the result is that of the member one level down. */
  lemma WrapperSearchedThrough(primary: seq<string>, secondary: seq<string>, test: Json -> bool, key: string, inner: Json, depth: nat)
    requires depth <= MaxDepth && key !in primary && key !in secondary && inner.Obj?
    ensures SearchDeep(Obj([(key, inner)]), primary, secondary, test, depth) == SearchDeep(inner, primary, secondary, test, depth + 1)
  {
    var v := Obj([(key, inner)]);
    NoMemberPasses(v, primary, test);
    NoMemberPasses(v, secondary, test);
    NoKeyFallsThrough(v, primary, secondary, test, depth);
    assert Children(v) == [inner];
  }

  /** A value `n` levels below the level where the search starts is found
      when that level is within `MaxDepth`. */
  lemma {:induction false} NestedFound(primary: seq<string>, secondary: seq<string>, test: Json -> bool,
                                        key: string, x: Json, n: nat, depth: nat)
    requires key in primary && "data" !in primary && "data" !in secondary
    requires Truthy(x) && test(x) && n + depth <= MaxDepth
    ensures SearchDeep(Nested(n, key, x), primary, secondary, test, depth) == Some(x)
    decreases n
  {
    if n == 0 {
      SingleMemberFound(primary, secondary, test, key, x, depth);
    } else {
      var inner := Nested(n - 1, key, x);
      WrapperSearchedThrough(primary, secondary, test, "data", inner, depth);
      NestedFound(primary, secondary, test, key, x, n - 1, depth + 1);
    }
  }

  /** A value below level `MaxDepth` is out of reach. */
  lemma {:induction false} NestedTooDeep(primary: seq<string>, secondary: seq<string>, test: Json -> bool,
                                          key: string, x: Json, n: nat, depth: nat)
    requires "data" !in primary && "data" !in secondary && n + depth > MaxDepth
    ensures SearchDeep(Nested(n, key, x), primary, secondary, test, depth).None?
    decreases n
  {
    if depth <= MaxDepth {
      var inner := Nested(n - 1, key, x);
      WrapperSearchedThrough(primary, secondary, test, "data", inner, depth);
      NestedTooDeep(primary, secondary, test, key, x, n - 1, depth + 1);
    }
  }

  // ---------------------------------------------------------------------------
  // findTitleDeep

  /** `typeof obj[key] === 'string' && isValidTitle(obj[key])` */
  predicate IsTitleValue(rt: Runtime, x: Json) {
    x.Str? && IsValidTitle(rt, x.s)
  }

  function TitleTest(rt: Runtime): Json -> bool {
    x => IsTitleValue(rt, x)
  }

  /** `findTitleDeep(obj, depth)`: the search with the priority keys first,
      the fallback keys second, and the placeholder filter as the test. */
  function FindTitleDeep(rt: Runtime, v: Json, depth: nat): (r: Option<string>)
    ensures r.Some? ==> IsValidTitle(rt, r.value)
  {
    match SearchDeep(v, PriorityKeys, FallbackKeys, TitleTest(rt), depth)
    case Some(Str(t)) => Some(t)
    case _ => None
  }

  /** `findTitleDeep` is sound and complete for the reference: what it returns
      is a title within reach, and it returns null only when none is. */
  lemma FindTitleDeepExact(rt: Runtime, v: Json, depth: nat)
    ensures FindTitleDeep(rt, v, depth).Some? ==>
      FoundWithin(v, TitleKeys, TitleTest(rt), Str(FindTitleDeep(rt, v, depth).value), depth)
    ensures FindTitleDeep(rt, v, depth).None? ==> forall t :: !FoundWithin(v, TitleKeys, TitleTest(rt), Str(t), depth)
  {
    SearchDeepExact(v, PriorityKeys, FallbackKeys, TitleTest(rt), depth);
  }

  /** A priority-key title wins over every fallback key and over everything
      deeper: the first acceptable priority key is the result. */
  lemma PriorityKeyWins(rt: Runtime, v: Json, depth: nat, k: nat, t: string)
    requires depth <= MaxDepth && (v.Arr? || v.Obj?)
    requires k < |PriorityKeys| && Get(v, PriorityKeys[k]) == Some(Str(t)) && IsValidTitle(rt, t)
    requires forall m :: 0 <= m < k ==> !Passes(v, PriorityKeys[m], TitleTest(rt))
    ensures FindTitleDeep(rt, v, depth) == Some(t)
  {
    assert Passes(v, PriorityKeys[k], TitleTest(rt));
    PrimaryKeyWins(v, PriorityKeys, FallbackKeys, TitleTest(rt), depth, k);
  }

  /** With no priority-key title at a level, the first fallback-key title wins
      over everything deeper. */
  lemma FallbackKeyWins(rt: Runtime, v: Json, depth: nat, k: nat, t: string)
    requires depth <= MaxDepth && (v.Arr? || v.Obj?)
    requires forall m :: 0 <= m < |PriorityKeys| ==> !Passes(v, PriorityKeys[m], TitleTest(rt))
    requires k < |FallbackKeys| && Get(v, FallbackKeys[k]) == Some(Str(t)) && IsValidTitle(rt, t)
    requires forall m :: 0 <= m < k ==> !Passes(v, FallbackKeys[m], TitleTest(rt))
    ensures FindTitleDeep(rt, v, depth) == Some(t)
  {
    assert Passes(v, FallbackKeys[k], TitleTest(rt));
    SecondaryKeyWins(v, PriorityKeys, FallbackKeys, TitleTest(rt), depth, k);
  }

  /** An object none of whose title-key members holds a title has no title
      key that passes. */
  lemma NoTitleMember(rt: Runtime, v: Json)
    requires v.Obj?
    requires forall i :: 0 <= i < |v.members| ==> v.members[i].0 !in TitleKeys || !IsTitleValue(rt, v.members[i].1)
    ensures forall k :: 0 <= k < |PriorityKeys| ==> !Passes(v, PriorityKeys[k], TitleTest(rt))
    ensures forall k :: 0 <= k < |FallbackKeys| ==> !Passes(v, FallbackKeys[k], TitleTest(rt))
  {
    NoMemberPasses(v, PriorityKeys, TitleTest(rt));
    NoMemberPasses(v, FallbackKeys, TitleTest(rt));
  }

  /** A title `n` levels below the level where the search starts, under the
      key "title" with a single "data" member at each level above it, is found
      exactly when that level is within `MaxDepth`. */
  lemma NestedTitleFoundWithinDepth(rt: Runtime, t: string, n: nat, depth: nat)
    requires IsValidTitle(rt, t)
    ensures FindTitleDeep(rt, Nested(n, "title", Str(t)), depth) == if n + depth <= MaxDepth then Some(t) else None
  {
    assert PriorityKeys[2] == "title";
    assert TitleTest(rt)(Str(t));
    if n + depth <= MaxDepth {
      NestedFound(PriorityKeys, FallbackKeys, TitleTest(rt), "title", Str(t), n, depth);
    } else {
      NestedTooDeep(PriorityKeys, FallbackKeys, TitleTest(rt), "title", Str(t), n, depth);
    }
  }

  // ---------------------------------------------------------------------------
  // extractProjectTitle

  /** `trimmed.startsWith('{') || trimmed.startsWith('[')` */
  predicate LooksLikeJson(trimmed: string) {
    StartsWith(trimmed, "{") || StartsWith(trimmed, "[")
  }

  /** `extractProjectTitle` exactly as written. In the schedule branch it
      returns `json.id_da_semana` whatever its type, so the result is a parsed
      value rather than a string. A `null` document makes `json.cronograma`
      throw, which the catch turns into the fallback, as does a falsy key. */
  function ExtractProjectTitleAsWritten(rt: Runtime, rawTitle: Option<string>, fallback: string): (r: Json)
    ensures rawTitle.None? || rawTitle == Some("") ==> r == Str(fallback)
  {
    if rawTitle.None? || rawTitle.value == "" then Str(fallback)
    else
      var trimmed := Trim(rawTitle.value);
      if LooksLikeJson(trimmed) then
        match rt.jsonParse(trimmed)
        case None => Str(fallback)
        case Some(json) => DocumentTitleAsWritten(rt, json, fallback)
      else if !IsValidTitle(rt, trimmed) then Str(fallback)
      else Str(trimmed)
  }

  /** The parsed-document branch of `extractProjectTitle` as written. */
  function DocumentTitleAsWritten(rt: Runtime, json: Json, fallback: string): (r: Json)
    ensures !r.Str? ==> TruthyAt(json, "cronograma") && Get(json, "id_da_semana") == Some(r)
  {
    var found := FindTitleDeep(rt, json, 0);
    if found.Some? then Str(found.value)
    else if TruthyAt(json, "cronograma") && TruthyAt(json, "id_da_semana") then Get(json, "id_da_semana").value
    else Str(fallback)
  }

  /** `String(n)` for a whole number `n`: its decimal digits, after a minus
      sign when it is negative. */
  function IntegerText(n: int): (r: string)
    ensures |r| >= 1 && (r[0] == '-' || Format.IsDigit(r[0]))
    ensures n >= 0 ==> Format.AllDigits(r) && Format.ParseDecimal(r) == n
    ensures n < 0 ==> r[0] == '-' && Format.AllDigits(r[1..]) && Format.ParseDecimal(r[1..]) == -n
  {
    if n < 0 then
      Format.ParseDecimalString(-n);
      assert ("-" + Format.DecimalString(-n))[1..] == Format.DecimalString(-n);
      "-" + Format.DecimalString(-n)
    else
      Format.ParseDecimalString(n);
      Format.DecimalString(n)
  }

  /** The text of a week identifier, `String(id)`, for the identifiers the
      model gives a text: a string is itself and a whole number is written in
      plain decimal, also from 1e21 up, where JavaScript switches to exponent
      notation; any other value has none here. */
  function IdText(id: Json): (r: Option<string>)
    ensures id.Str? ==> r == Some(id.s)
    ensures id.Num? && id.n.Floor as real == id.n ==> r == Some(IntegerText(id.n.Floor))
    ensures r.Some? ==> id.Str? || id.Num?
  {
    match id
    case Str(s) => Some(s)
    case Num(n) => if n.Floor as real == n then Some(IntegerText(n.Floor)) else None
    case _ => None
  }

  /** The schedule rule as corrected: a schedule document (a truthy
      "cronograma") with a truthy "id_da_semana" gives that identifier as
      text. */
  function ScheduleId(json: Json): (r: Option<string>)
    ensures r.Some? ==>
      && r.value != "" && TruthyAt(json, "cronograma") && TruthyAt(json, "id_da_semana")
      && IdText(Get(json, "id_da_semana").value) == r
    ensures TruthyAt(json, "cronograma") && TruthyAt(json, "id_da_semana") ==>
      r == IdText(Get(json, "id_da_semana").value)
  {
    if TruthyAt(json, "cronograma") && TruthyAt(json, "id_da_semana")
    then IdText(Get(json, "id_da_semana").value)
    else None
  }

  /** `extractProjectTitle` with the schedule rule corrected to return the
      week identifier as text. */
  function ExtractProjectTitle(rt: Runtime, rawTitle: Option<string>, fallback: string): (r: string)
    ensures rawTitle.None? || rawTitle == Some("") ==> r == fallback
  {
    if rawTitle.None? || rawTitle.value == "" then fallback
    else
      var trimmed := Trim(rawTitle.value);
      if LooksLikeJson(trimmed) then
        match rt.jsonParse(trimmed)
        case None => fallback
        case Some(json) => DocumentTitle(rt, json, fallback)
      else if !IsValidTitle(rt, trimmed) then fallback
      else trimmed
  }

  /** The parsed-document branch of `extractProjectTitle`, corrected: the
      title found within `MaxDepth` levels, else the week identifier of a
      schedule as text, else the fallback. */
  function DocumentTitle(rt: Runtime, json: Json, fallback: string): (r: string)
    ensures FindTitleDeep(rt, json, 0).None? && ScheduleId(json).None? ==> r == fallback
  {
    var found := FindTitleDeep(rt, json, 0);
    if found.Some? then found.value
    else if ScheduleId(json).Some? then ScheduleId(json).value
    else fallback
  }

  /** The two versions differ only where the source returns a week identifier
      that is not a string; there the corrected one gives that identifier's
      text, or the fallback when the model gives it none. */
  lemma TitleCorrectionIsNarrow(rt: Runtime, rawTitle: Option<string>, fallback: string)
    ensures ExtractProjectTitleAsWritten(rt, rawTitle, fallback).Str? ==>
      ExtractProjectTitleAsWritten(rt, rawTitle, fallback) == Str(ExtractProjectTitle(rt, rawTitle, fallback))
    ensures !ExtractProjectTitleAsWritten(rt, rawTitle, fallback).Str? ==>
      && rawTitle.Some? && rt.jsonParse(Trim(rawTitle.value)).Some?
      && var json := rt.jsonParse(Trim(rawTitle.value)).value;
      && var id := ExtractProjectTitleAsWritten(rt, rawTitle, fallback);
      && TruthyAt(json, "cronograma")
      && Get(json, "id_da_semana") == Some(id)
      && ExtractProjectTitle(rt, rawTitle, fallback) == (if IdText(id).Some? then IdText(id).value else fallback)
  {
  }

  /** A schedule document: an empty "cronograma" and a week identifier. */
  function Schedule(id: Json): Json {
    Obj([("cronograma", Arr([])), ("id_da_semana", id)])
  }

  /** A schedule whose week identifier is a number or a string holds nothing
      for a search that does not look under "cronograma" and does not accept
      that identifier: its root has no passing key, its empty array holds
      nothing and a number or a string is not searched into. */
  lemma ScheduleHoldsNothing(primary: seq<string>, secondary: seq<string>, test: Json -> bool, id: Json)
    requires "cronograma" !in primary && "cronograma" !in secondary
    requires id.Num? || id.Str?
    requires !test(id)
    ensures SearchDeep(Schedule(id), primary, secondary, test, 0).None?
  {
    var json := Schedule(id);
    ScheduleMembers(id);
    NoMemberPasses(json, primary, test);
    NoMemberPasses(json, secondary, test);
    NoKeyFallsThrough(json, primary, secondary, test, 0);
    assert Children(json) == [Arr([]), id];
    assert SearchChildren([], primary, secondary, test, 2).None?;
    NoKeyFallsThrough(Arr([]), primary, secondary, test, 1);
    assert [Arr([]), id][1..] == [id];
    assert SearchChildren([id], primary, secondary, test, 1).None?;
  }

  /** The discrepancy: for a schedule whose week identifier is a whole number
      other than 0, such as `{"cronograma": [], "id_da_semana": 23}`, the
      source returns that number where a title string is due; the corrected
      version returns its text, "23". */
  lemma NumericWeekIdIsReturned(rt: Runtime, id: int, fallback: string)
    requires id != 0
    ensures DocumentTitleAsWritten(rt, Schedule(Num(id as real)), fallback) == Num(id as real)
    ensures DocumentTitle(rt, Schedule(Num(id as real)), fallback) == IntegerText(id)
  {
    ScheduleHoldsNothing(PriorityKeys, FallbackKeys, TitleTest(rt), Num(id as real));
    ScheduleMembers(Num(id as real));
  }

  /** "id_da_semana" is also a priority key, so the schedule rule sees a
      string identifier only when the placeholder filter has rejected it. */
  lemma ScheduleStringIdIsRejected(rt: Runtime, json: Json)
    ensures && FindTitleDeep(rt, json, 0).None?
            && TruthyAt(json, "id_da_semana") && Get(json, "id_da_semana").value.Str?
            ==> !IsValidTitle(rt, Get(json, "id_da_semana").value.s)
  {
    if TruthyAt(json, "id_da_semana") && Get(json, "id_da_semana").value.Str?
       && IsValidTitle(rt, Get(json, "id_da_semana").value.s)
    {
      assert PriorityKeys[6] == "id_da_semana";
      assert Passes(json, PriorityKeys[6], TitleTest(rt));
      FirstPassingFound(json, PriorityKeys, TitleTest(rt));
      KeyFoundHere(json, PriorityKeys, FallbackKeys, TitleTest(rt), 0);
    }
  }

  /** So a placeholder week identifier comes back, in the source and in the
      corrected version alike: `{"cronograma": [], "id_da_semana": "⏳"}`
      gives the pending marker. */
  lemma RejectedWeekIdIsReturned(rt: Runtime, id: string, fallback: string)
    requires id != "" && !IsValidTitle(rt, id)
    ensures DocumentTitleAsWritten(rt, Schedule(Str(id)), fallback) == Str(id)
    ensures DocumentTitle(rt, Schedule(Str(id)), fallback) == id
  {
    ScheduleHoldsNothing(PriorityKeys, FallbackKeys, TitleTest(rt), Str(id));
    ScheduleMembers(Str(id));
  }

  /** What a schedule holds under its two keys. */
  lemma ScheduleMembers(id: Json)
    ensures TruthyAt(Schedule(id), "cronograma")
    ensures Get(Schedule(id), "id_da_semana") == Some(id)
  {
    var members := Schedule(id).members;
    assert members[0].0 == "cronograma" && members[1].0 == "id_da_semana";
  }

  /** What a JSON-looking title recovers: the fallback when parsing fails; a
      title found within `MaxDepth` levels, or a schedule's week identifier,
      or the fallback otherwise; and a title whenever one lies within reach. */
  lemma TitleFromJson(rt: Runtime, raw: string, fallback: string)
    requires raw != "" && LooksLikeJson(Trim(raw))
    ensures var r := ExtractProjectTitle(rt, Some(raw), fallback);
      match rt.jsonParse(Trim(raw))
      case None => r == fallback
      case Some(json) =>
        && (r == fallback || FoundWithin(json, TitleKeys, TitleTest(rt), Str(r), 0) || ScheduleId(json) == Some(r))
        && ((exists t :: FoundWithin(json, TitleKeys, TitleTest(rt), Str(t), 0)) ==> FoundWithin(json, TitleKeys, TitleTest(rt), Str(r), 0))
  {
    if rt.jsonParse(Trim(raw)).Some? {
      FindTitleDeepExact(rt, rt.jsonParse(Trim(raw)).value, 0);
    }
  }

  /** Every string stored anywhere in `v` is shorter than `n`. */
  ghost predicate StringsShorterThan(v: Json, n: int)
    decreases v
  {
    match v
    case Str(s) => |s| < n
    case Arr(items) => forall i :: 0 <= i < |items| ==> StringsShorterThan(items[i], n)
    case Obj(members) => forall i :: 0 <= i < |members| ==> StringsShorterThan(members[i].1, n)
    case _ => true
  }

  lemma ChildrenShorterThan(v: Json, n: int)
    requires StringsShorterThan(v, n)
    ensures forall i :: 0 <= i < |Children(v)| ==> StringsShorterThan(Children(v)[i], n)
  {
  }

  lemma LookupShorterThan(v: Json, key: string, n: int)
    requires StringsShorterThan(v, n) && Get(v, key).Some?
    ensures StringsShorterThan(Get(v, key).value, n)
  {
  }

  /** Whatever a search reaches in `v` has its strings shorter than `n` when
      all of `v`'s strings are. */
  lemma {:induction false} FoundWithinIsShorter(v: Json, keys: seq<string>, test: Json -> bool, x: Json, depth: nat, n: int)
    requires StringsShorterThan(v, n) && FoundWithin(v, keys, test, x, depth)
    ensures StringsShorterThan(x, n)
    decreases MaxDepth - depth
  {
    if exists k :: 0 <= k < |keys| && Get(v, keys[k]) == Some(x) {
      var k :| 0 <= k < |keys| && Get(v, keys[k]) == Some(x);
      LookupShorterThan(v, keys[k], n);
    } else {
      var i :| 0 <= i < |Children(v)| && FoundWithin(Children(v)[i], keys, test, x, depth + 1);
      ChildrenShorterThan(v, n);
      FoundWithinIsShorter(Children(v)[i], keys, test, x, depth + 1, n);
    }
  }

  /** The central promise: text that looks like JSON is never handed back as
      the title. It rests on a property of `JSON.parse` (a string inside a
      document is shorter than the document's text) and on a fallback that is
      not that text. */
  lemma TitleNeverRawJson(rt: Runtime, raw: string, fallback: string)
    requires LooksLikeJson(Trim(raw))
    requires fallback != Trim(raw)
    requires rt.jsonParse(Trim(raw)).Some? ==> StringsShorterThan(rt.jsonParse(Trim(raw)).value, |Trim(raw)|)
    ensures ExtractProjectTitle(rt, Some(raw), fallback) != Trim(raw)
  {
    var trimmed := Trim(raw);
    TitleFromJson(rt, raw, fallback);
    var r := ExtractProjectTitle(rt, Some(raw), fallback);
    if rt.jsonParse(trimmed).Some? && r != fallback {
      var json := rt.jsonParse(trimmed).value;
      if FoundWithin(json, TitleKeys, TitleTest(rt), Str(r), 0) {
        FoundWithinIsShorter(json, TitleKeys, TitleTest(rt), Str(r), 0, |trimmed|);
      } else {
        LookupShorterThan(json, "id_da_semana", |trimmed|);
      }
    }
  }

  /** The code as written keeps the promise too: JSON-looking input never
      comes back as the title. */
  lemma AsWrittenNeverRawJson(rt: Runtime, raw: string, fallback: string)
    requires LooksLikeJson(Trim(raw))
    requires fallback != Trim(raw)
    requires rt.jsonParse(Trim(raw)).Some? ==> StringsShorterThan(rt.jsonParse(Trim(raw)).value, |Trim(raw)|)
    ensures ExtractProjectTitleAsWritten(rt, Some(raw), fallback) != Str(Trim(raw))
  {
    TitleCorrectionIsNarrow(rt, Some(raw), fallback);
    TitleNeverRawJson(rt, raw, fallback);
  }

  /** Plain text is returned trimmed when it is a valid title, and otherwise
      replaced by the fallback; whitespace alone gives the fallback. */
  lemma PlainTitle(rt: Runtime, raw: string, fallback: string)
    requires raw != "" && !LooksLikeJson(Trim(raw))
    ensures IsValidTitle(rt, Trim(raw)) ==> ExtractProjectTitle(rt, Some(raw), fallback) == Trim(raw)
    ensures !IsValidTitle(rt, Trim(raw)) ==> ExtractProjectTitle(rt, Some(raw), fallback) == fallback
    ensures AllWhitespace(raw) ==> ExtractProjectTitle(rt, Some(raw), fallback) == fallback
  {
    if AllWhitespace(raw) {
      TrimAllWhitespace(raw);
    }
  }

  /** A title recovered from plain text is recovered unchanged a second time. */
  lemma PlainTitleIsFixedPoint(rt: Runtime, raw: string, fallback: string)
    requires raw != "" && !LooksLikeJson(Trim(raw)) && IsValidTitle(rt, Trim(raw))
    ensures var r := ExtractProjectTitle(rt, Some(raw), fallback);
      ExtractProjectTitle(rt, Some(r), fallback) == r
  {
    TrimIdempotent(raw);
  }

  /** A priority key beats a fallback key that comes first in the object:
      `{"name": "Weak", "title": "Strong"}` gives "Strong". */
  lemma PriorityExample(rt: Runtime, fallback: string)
    requires IsValidTitle(rt, "Strong")
    ensures DocumentTitle(rt, Obj([("name", Str("Weak")), ("title", Str("Strong"))]), fallback) == "Strong"
  {
    var json := Obj([("name", Str("Weak")), ("title", Str("Strong"))]);
    assert Get(json, PriorityKeys[0]).None? && Get(json, PriorityKeys[1]).None?;
    PriorityKeyWins(rt, json, 0, 2, "Strong");
  }

  /** A placeholder under a title key is skipped and, with nothing else to
      find, the fallback is returned: `{"title": "Untitled Project"}`. */
  lemma PlaceholderExample(rt: Runtime, fallback: string)
    requires rt.toLowerCase(UntitledProject) == "untitled project"
    ensures DocumentTitle(rt, Obj([("title", Str(UntitledProject))]), fallback) == fallback
  {
    var json := Obj([("title", Str(UntitledProject))]);
    PlaceholderRejected(rt, UntitledProject, "", "untitled project", "");
    assert !TitleTest(rt)(Str(UntitledProject));
    SingleMemberRejected(PriorityKeys, FallbackKeys, TitleTest(rt), "title", Str(UntitledProject), 0);
    assert ScheduleId(json).None?;
  }

  /** The Portuguese key comes first: a document that begins with a "titulo"
      member, like the generated script in reproduce_issue.ts, yields it. */
  lemma TituloExample(rt: Runtime, titulo: string, rest: seq<(string, Json)>, fallback: string)
    requires IsValidTitle(rt, titulo)
    ensures DocumentTitle(rt, Obj([("titulo", Str(titulo))] + rest), fallback) == titulo
  {
    var json := Obj([("titulo", Str(titulo))] + rest);
    PriorityKeyWins(rt, json, 0, 0, titulo);
  }

  // ---------------------------------------------------------------------------
  // findValueDeep and extractProjectDescription

  /** The test of `findValueDeep`, which accepts every truthy value. */
  const AnyValue: Json -> bool := x => true

  /** `findValueDeep(obj, keys, depth)`: the search with a single key list
      that accepts a truthy value of any type. */
  function FindValueDeep(v: Json, keys: seq<string>, depth: nat): (r: Option<Json>)
    ensures r.Some? ==> Truthy(r.value)
  {
    SearchDeep(v, keys, [], AnyValue, depth)
  }

  /** `findValueDeep` is sound and complete for the reference. */
  lemma FindValueDeepExact(v: Json, keys: seq<string>, depth: nat)
    ensures FindValueDeep(v, keys, depth).Some? ==> FoundWithin(v, keys, AnyValue, FindValueDeep(v, keys, depth).value, depth)
    ensures FindValueDeep(v, keys, depth).None? ==> forall x :: !FoundWithin(v, keys, AnyValue, x, depth)
  {
    SearchDeepExact(v, keys, [], AnyValue, depth);
    assert keys + [] == keys;
  }

  /** `extractProjectDescription`: JSON-looking text gives the first truthy
      value under a description key when it is a string, and the fallback
      otherwise; plain text is returned trimmed, unfiltered. */
  function ExtractProjectDescription(rt: Runtime, rawDesc: Option<string>, fallback: string): (r: string)
    ensures rawDesc.None? || rawDesc == Some("") ==> r == fallback
  {
    if rawDesc.None? || rawDesc.value == "" then fallback
    else
      var trimmed := Trim(rawDesc.value);
      if LooksLikeJson(trimmed) then
        match rt.jsonParse(trimmed)
        case None => fallback
        case Some(json) => DocumentDescription(json, fallback)
      else trimmed
  }

  /** The parsed-document branch of `extractProjectDescription`: the first
      truthy value found under a description key when it is a string, else
      the fallback. */
  function DocumentDescription(json: Json, fallback: string): (r: string)
    ensures r != fallback ==> FindValueDeep(json, DescriptionKeys, 0) == Some(Str(r))
    ensures FindValueDeep(json, DescriptionKeys, 0).Some? && FindValueDeep(json, DescriptionKeys, 0).value.Str? ==>
      r == FindValueDeep(json, DescriptionKeys, 0).value.s
  {
    match FindValueDeep(json, DescriptionKeys, 0)
    case Some(Str(found)) => found
    case _ => fallback
  }

  /** What a JSON-looking description recovers: the fallback, or a non-empty
      string stored under a description key within `MaxDepth` levels. The
      first value the search finds is returned whenever it is a string, so
      a document in which everything within reach is a string always yields
      one of them. */
  lemma DescriptionFromJson(rt: Runtime, raw: string, fallback: string)
    requires raw != "" && LooksLikeJson(Trim(raw))
    ensures var r := ExtractProjectDescription(rt, Some(raw), fallback);
      match rt.jsonParse(Trim(raw))
      case None => r == fallback
      case Some(json) =>
        && (r == fallback || (r != "" && FoundWithin(json, DescriptionKeys, AnyValue, Str(r), 0)))
        && (FindValueDeep(json, DescriptionKeys, 0).Some? && FindValueDeep(json, DescriptionKeys, 0).value.Str? ==>
              r == FindValueDeep(json, DescriptionKeys, 0).value.s)
        && ((exists x :: FoundWithin(json, DescriptionKeys, AnyValue, x, 0)) &&
            (forall x :: FoundWithin(json, DescriptionKeys, AnyValue, x, 0) ==> x.Str?) ==>
              FoundWithin(json, DescriptionKeys, AnyValue, Str(r), 0))
  {
    if rt.jsonParse(Trim(raw)).Some? {
      FindValueDeepExact(rt.jsonParse(Trim(raw)).value, DescriptionKeys, 0);
    }
  }

  /** JSON-looking text is never handed back as the description (under the
      same property of `JSON.parse` as for titles). */
  lemma DescriptionNeverRawJson(rt: Runtime, raw: string, fallback: string)
    requires LooksLikeJson(Trim(raw))
    requires fallback != Trim(raw)
    requires rt.jsonParse(Trim(raw)).Some? ==> StringsShorterThan(rt.jsonParse(Trim(raw)).value, |Trim(raw)|)
    ensures ExtractProjectDescription(rt, Some(raw), fallback) != Trim(raw)
  {
    DescriptionFromJson(rt, raw, fallback);
    var r := ExtractProjectDescription(rt, Some(raw), fallback);
    if rt.jsonParse(Trim(raw)).Some? && r != fallback {
      FoundWithinIsShorter(rt.jsonParse(Trim(raw)).value, DescriptionKeys, AnyValue, Str(r), 0, |Trim(raw)|);
    }
  }

  /** Plain text is the description as it stands, trimmed: no placeholder
      filter, and whitespace alone gives the empty string, not the fallback. */
  lemma PlainDescription(rt: Runtime, raw: string, fallback: string)
    requires raw != "" && !LooksLikeJson(Trim(raw))
    ensures ExtractProjectDescription(rt, Some(raw), fallback) == Trim(raw)
    ensures AllWhitespace(raw) ==> ExtractProjectDescription(rt, Some(raw), fallback) == ""
  {
    if AllWhitespace(raw) {
      TrimAllWhitespace(raw);
    }
  }

  /** A truthy value that is not a string stops the search: with an empty
      array under "description", the string under "desc" one level down is
      within reach but not returned, and the fallback is. */
  lemma NonStringDescriptionStopsSearch(fallback: string)
    ensures var json := Obj([("description", Arr([])), ("details", Obj([("desc", Str("deep"))]))]);
      && FoundWithin(json, DescriptionKeys, AnyValue, Str("deep"), 0)
      && DocumentDescription(json, fallback) == fallback
  {
    var inner := Obj([("desc", Str("deep"))]);
    var json := Obj([("description", Arr([])), ("details", inner)]);
    assert Get(inner, DescriptionKeys[2]) == Some(Str("deep"));
    assert FoundWithin(inner, DescriptionKeys, AnyValue, Str("deep"), 1);
    assert Children(json)[1] == inner;
    assert Get(json, DescriptionKeys[0]) == Some(Arr([]));
    PrimaryKeyWins(json, DescriptionKeys, [], AnyValue, 0, 0);
  }

  /** A string under the first description key is the description:
      `{"description": "D"}` gives "D". */
  lemma DescriptionExample(fallback: string)
    ensures DocumentDescription(Obj([("description", Str("D"))]), fallback) == "D"
  {
    SingleMemberFound(DescriptionKeys, [], AnyValue, "description", Str("D"), 0);
  }

  /** The last description key is found one level down, under a key that is
      not searched itself: `{"data": {"resumo": "R"}}` gives "R". */
  lemma NestedResumoExample(fallback: string)
    ensures DocumentDescription(Obj([("data", Obj([("resumo", Str("R"))]))]), fallback) == "R"
  {
    var inner := Obj([("resumo", Str("R"))]);
    assert DescriptionKeys[4] == "resumo";
    WrapperSearchedThrough(DescriptionKeys, [], AnyValue, "data", inner, 0);
    SingleMemberFound(DescriptionKeys, [], AnyValue, "resumo", Str("R"), 1);
  }

  // ---------------------------------------------------------------------------
  // extractProjectHashtags

  /** The argument of `extractProjectHashtags`: missing, a string, or an array
      of strings. */
  datatype RawTags = Missing | Text(text: string) | List(tags: seq<string>)

  /** Strings as JavaScript values. */
  function Strs(ss: seq<string>): (r: seq<Json>)
    ensures |r| == |ss| && forall i :: 0 <= i < |ss| ==> r[i] == Str(ss[i])
  {
    seq(|ss|, i requires 0 <= i < |ss| => Str(ss[i]))
  }

  /** `s.split(',').map(s => s.trim())` */
  function SplitTags(s: string): seq<Json> {
    Strs(TrimEach(Split(s, ',')))
  }

  /** `extractProjectHashtags`. A parsed or found array is returned as it is,
      so its elements need not be strings. */
  function ExtractProjectHashtags(rt: Runtime, rawTags: RawTags): (r: seq<Json>)
    ensures rawTags.Missing? || rawTags == Text("") ==> r == []
    ensures rawTags.List? ==> r == Strs(rawTags.tags)
  {
    match rawTags
    case Missing => []
    case List(tags) => Strs(tags)
    case Text(text) =>
      if text == "" then []
      else
        var trimmed := Trim(text);
        if LooksLikeJson(trimmed) then
          match rt.jsonParse(trimmed)
          case None => []
          case Some(json) => DocumentTags(json)
        else PlainTextTags(trimmed)
  }

  /** The parsed-document branch of `extractProjectHashtags`: a top-level
      array as it is, else what the first truthy value found under a hashtag
      key gives. */
  function DocumentTags(json: Json): seq<Json> {
    if json.Arr? then json.items
    else
      match FindValueDeep(json, HashtagKeys, 0)
      case Some(found) => TagsOf(found)
      case None => []
  }

  /** The tags a found value gives: an array as it is, a string split on
      commas, anything else none. */
  function TagsOf(found: Json): seq<Json> {
    match found
    case Arr(items) => items
    case Str(s) => SplitTags(s)
    case _ => []
  }

  /** The plain-text branch of `extractProjectHashtags`. */
  function PlainTextTags(trimmed: string): (r: seq<Json>)
    ensures ',' !in trimmed ==> |r| <= 1
  {
    if ',' in trimmed then SplitTags(trimmed)
    else if |trimmed| < ShortTagLimit then [Str(trimmed)]
    else []
  }

  /** Splitting tags keeps every piece: the result has one trimmed element per
      comma-separated piece, and the pieces joined with commas give back the
      text. */
  lemma SplitTagsPieces(s: string)
    ensures var pieces := Split(s, ',');
      && |SplitTags(s)| == |pieces|
      && (forall i :: 0 <= i < |pieces| ==> SplitTags(s)[i] == Str(Trim(pieces[i])) && ',' !in pieces[i])
      && Join(pieces, ',') == s
  {
    SplitJoin(s, ',');
  }

  /** A parsed tag document that is not an array gives nothing when no
      truthy value lies under a hashtag key within `MaxDepth` levels, and
      otherwise the tags of such a value. */
  lemma TagsFromDocument(json: Json)
    requires !json.Arr?
    ensures (forall x :: !FoundWithin(json, HashtagKeys, AnyValue, x, 0)) ==> DocumentTags(json) == []
    ensures (exists x :: FoundWithin(json, HashtagKeys, AnyValue, x, 0)) ==>
      exists x :: FoundWithin(json, HashtagKeys, AnyValue, x, 0) && DocumentTags(json) == TagsOf(x)
  {
    FindValueDeepExact(json, HashtagKeys, 0);
    var found := FindValueDeep(json, HashtagKeys, 0);
    if found.Some? {
      assert DocumentTags(json) == TagsOf(found.value);
    }
  }

  /** JSON-looking text: a parse failure gives no tags, a parsed array is
      returned as it is, and any other document gives the tags of what the
      value search finds in it. */
  lemma TagsFromJson(rt: Runtime, raw: string)
    requires raw != "" && LooksLikeJson(Trim(raw))
    ensures match rt.jsonParse(Trim(raw))
      case None => ExtractProjectHashtags(rt, Text(raw)) == []
      case Some(Arr(items)) => ExtractProjectHashtags(rt, Text(raw)) == items
      case Some(json) => ExtractProjectHashtags(rt, Text(raw)) == DocumentTags(json)
  {
  }

  /** The tags split from a string shorter than `n` are strings shorter than
      `n`. */
  lemma SplitTagsShorter(s: string, n: int)
    requires |s| < n
    ensures forall t :: t in SplitTags(s) ==> t.Str? && |t.s| < n
  {
    SplitPiecesNoLonger(s, ',');
    var pieces := Split(s, ',');
    forall k | 0 <= k < |pieces|
      ensures |Trim(pieces[k])| < n
    {
    }
  }

  /** JSON-looking text never comes back as a tag, under the same property
      of `JSON.parse` as for titles: every tag of a parsed document is a
      value within it, or a piece of a string within it. */
  lemma TagsNeverRawJson(rt: Runtime, raw: string)
    requires LooksLikeJson(Trim(raw))
    requires rt.jsonParse(Trim(raw)).Some? ==> StringsShorterThan(rt.jsonParse(Trim(raw)).value, |Trim(raw)|)
    ensures Str(Trim(raw)) !in ExtractProjectHashtags(rt, Text(raw))
  {
    var trimmed := Trim(raw);
    var n := |trimmed|;
    if raw != "" && rt.jsonParse(trimmed).Some? {
      var json := rt.jsonParse(trimmed).value;
      if json.Arr? {
        ChildrenShorterThan(json, n);
      } else {
        FindValueDeepExact(json, HashtagKeys, 0);
        var found := FindValueDeep(json, HashtagKeys, 0);
        if found.Some? {
          FoundWithinIsShorter(json, HashtagKeys, AnyValue, found.value, 0, n);
          match found.value
          case Arr(items) =>
            ChildrenShorterThan(found.value, n);
          case Str(s) =>
            SplitTagsShorter(s, n);
          case _ =>
        }
      }
    }
  }

  /** Plain text: split on commas when it has one; otherwise one tag when
      shorter than `ShortTagLimit` (whitespace alone gives one empty tag), and
      no tag at all when longer. */
  lemma TagsFromPlainText(rt: Runtime, raw: string)
    requires raw != "" && !LooksLikeJson(Trim(raw))
    ensures ',' in Trim(raw) ==> ExtractProjectHashtags(rt, Text(raw)) == SplitTags(Trim(raw))
    ensures ',' !in Trim(raw) && |Trim(raw)| < ShortTagLimit ==> ExtractProjectHashtags(rt, Text(raw)) == [Str(Trim(raw))]
    ensures ',' !in Trim(raw) && |Trim(raw)| >= ShortTagLimit ==> ExtractProjectHashtags(rt, Text(raw)) == []
    ensures AllWhitespace(raw) ==> ExtractProjectHashtags(rt, Text(raw)) == [Str("")]
  {
    if AllWhitespace(raw) {
      TrimAllWhitespace(raw);
    }
  }

  /** Pieces without a comma, joined with commas, give back the same pieces,
      each trimmed, as plain-text tags. */
  lemma PlainTextTagsOfJoin(pieces: seq<string>)
    requires |pieces| >= 2 && forall k :: 0 <= k < |pieces| ==> ',' !in pieces[k]
    ensures Join(pieces, ',') != ""
    ensures PlainTextTags(Join(pieces, ',')) == Strs(TrimEach(pieces))
  {
    JoinHasSeparator(pieces, ',');
    JoinSplit(pieces, ',');
  }

  /** A comma-separated list such as "funny, viral, shorts" gives each piece,
      trimmed, in order. */
  lemma CommaTags(rt: Runtime, text: string, pieces: seq<string>)
    requires |pieces| >= 2 && forall k :: 0 <= k < |pieces| ==> ',' !in pieces[k]
    requires text == Join(pieces, ',')
    requires Trim(text) == text && !LooksLikeJson(text)
    ensures ExtractProjectHashtags(rt, Text(text)) == Strs(TrimEach(pieces))
  {
    PlainTextTagsOfJoin(pieces);
    PlainTextBranch(rt, text);
  }

  /** Non-empty, already trimmed text that does not look like JSON takes the
      plain-text branch. */
  lemma PlainTextBranch(rt: Runtime, text: string)
    requires text != "" && Trim(text) == text && !LooksLikeJson(text)
    ensures ExtractProjectHashtags(rt, Text(text)) == PlainTextTags(text)
  {
  }

  /** `{"hashtags": ["a", "b"]}` gives the array. */
  lemma HashtagArrayExample()
    ensures DocumentTags(Obj([("hashtags", Arr([Str("a"), Str("b")]))])) == [Str("a"), Str("b")]
  {
    var json := Obj([("hashtags", Arr([Str("a"), Str("b")]))]);
    PrimaryKeyWins(json, HashtagKeys, [], AnyValue, 0, 0);
  }

  /** "x, y" splits into the tags "x" and "y". */
  lemma SplitTwoTags()
    ensures SplitTags("x, y") == [Str("x"), Str("y")]
  {
    SplitTwoPieces();
    TrimTwoPieces();
    var trimmed := TrimEach(["x", " y"]);
    assert trimmed[0] == "x" && trimmed[1] == "y";
    var tags := Strs(trimmed);
    assert |tags| == 2 && tags[0] == Str("x") && tags[1] == Str("y");
  }

  lemma SplitTwoPieces()
    ensures Split("x, y", ',') == ["x", " y"]
  {
    assert "x, y" == "x" + [','] + " y";
    SplitFirstPiece("x", ',', " y");
    SplitNoSeparator(" y", ',');
  }

  lemma TrimTwoPieces()
    ensures Trim("x") == "x" && Trim(" y") == "y"
  {
    assert " y"[1..] == "y";
  }

  /** `{"tags": "x, y"}` gives the split string. */
  lemma TagStringExample()
    ensures DocumentTags(Obj([("tags", Str("x, y"))])) == [Str("x"), Str("y")]
  {
    var json := Obj([("tags", Str("x, y"))]);
    assert Get(json, HashtagKeys[0]).None? && Get(json, HashtagKeys[1]).None?;
    PrimaryKeyWins(json, HashtagKeys, [], AnyValue, 0, 2);
    SplitTwoTags();
  }
}
