/**
 * The list logic of the dashboard page: the search filter over the links,
 * the click-increase detection between two refreshes, and the 60-character
 * truncation of long targets with its "See more"/"Hide" toggle.
 */
module Dashboard {
  import opened Wrappers
  import opened Text
  import opened Seqs
  import Shortener

  /** One item of the list the page fetches from `GET /api/link`. */
  datatype ShortLink = ShortLink(code: string, targetUrl: string, clicks: Option<nat>)

  /** `l.clicks || 0`: a missing count reads as zero. */
  function ClicksOf(l: ShortLink): nat
  {
    if l.clicks.Some? then l.clicks.value else 0
  }

  // ---------------------------------------------------------------------
  // Search filter
  // ---------------------------------------------------------------------

  /**
   * The lower-cased code or the lower-cased target contains the lower-cased
   * query. The query itself is lower-cased but not trimmed.
   */
  predicate Matches(l: ShortLink, filter: string)
  {
    var q := ToLower(filter);
    Contains(ToLower(l.code), q) || Contains(ToLower(l.targetUrl), q)
  }

  /** A blank filter lets every link through; otherwise the link must match. */
  predicate Passes(l: ShortLink, filter: string)
  {
    Trim(filter) == [] || Matches(l, filter)
  }

  /**
   * `filteredLinks`: the links the filter lets through, in list order, every
   * copy of a link that passes being kept.
   */
  function FilteredLinks(links: seq<ShortLink>, filter: string): (r: seq<ShortLink>)
    ensures IsSubsequence(r, links)
    ensures forall l | l in r :: l in links && Passes(l, filter)
    ensures forall l | l in links && Passes(l, filter) :: l in r
    ensures forall l | l in links && Passes(l, filter) :: multiset(r)[l] == multiset(links)[l]
    ensures Trim(filter) == [] ==> r == links
  {
    var keep := (l: ShortLink) => Passes(l, filter);
    FilterIsSubsequence(links, keep);
    if Trim(filter) == [] then
      FilterKeepsAll(links, keep);
      Filter(links, keep)
    else
      Filter(links, keep)
  }

  /** Matching is case-insensitive in the query: "ABC" and "abc" select the same links. */
  lemma MatchesIgnoresQueryCase(l: ShortLink, filter: string)
    ensures Matches(l, filter) == Matches(l, ToLower(filter))
  {
    ToLowerIdempotent(filter);
  }

  /** A link is found by searching for its own code. */
  lemma {:induction false} CodeFindsItsLink(links: seq<ShortLink>, i: nat)
    requires i < |links| && Trim(links[i].code) != []
    ensures links[i] in FilteredLinks(links, links[i].code)
  {
    var l := links[i];
    assert ToLower(l.code) <= ToLower(l.code);
    assert Matches(l, l.code);
  }

  /**
   * Because the query is not trimmed, a query longer than both the code and
   * the target hides the link even when its trim would match.
   */
  lemma {:induction false} LongQueryHidesLink(l: ShortLink, filter: string)
    requires Trim(filter) != []
    requires |filter| > |l.code| && |filter| > |l.targetUrl|
    ensures !Passes(l, filter)
  {
    if Contains(ToLower(l.code), ToLower(filter)) {
      ContainsIsNoLonger(ToLower(l.code), ToLower(filter));
    }
    if Contains(ToLower(l.targetUrl), ToLower(filter)) {
      ContainsIsNoLonger(ToLower(l.targetUrl), ToLower(filter));
    }
  }

  // ---------------------------------------------------------------------
  // Click-increase detection
  // ---------------------------------------------------------------------

  /** A toast "Clicks updated for <code> (+<diff>)". */
  datatype ClickNotice = ClickNotice(code: string, diff: nat)

  /** No later item of `data` has the code of item `i`. */
  predicate LastWithCode(data: seq<ShortLink>, i: nat)
    requires i < |data|
  {
    forall j | i < j < |data| :: data[j].code != data[i].code
  }

  /** No two items of `data` share a code, as the store guarantees. */
  predicate DistinctCodes(data: seq<ShortLink>)
  {
    forall i, j | 0 <= i < j < |data| :: data[i].code != data[j].code
  }

  /**
   * The `next` dictionary after the `forEach`: exactly the codes of `data`,
   * each mapped to the count of its last item (`SnapshotKeys`,
   * `SnapshotLastWins`).
   */
  function Snapshot(data: seq<ShortLink>): (r: map<string, nat>)
    ensures data == [] ==> r == map[]
  {
    if data == [] then map[]
    else
      var l := data[|data| - 1];
      Snapshot(data[..|data| - 1])[l.code := ClicksOf(l)]
  }

  /** The snapshot holds exactly the codes of the list. */
  lemma {:induction false} SnapshotKeys(data: seq<ShortLink>)
    ensures forall i | 0 <= i < |data| :: data[i].code in Snapshot(data)
    ensures forall c | c in Snapshot(data) :: exists i :: 0 <= i < |data| && data[i].code == c
    decreases |data|
  {
    if data != [] {
      var init := data[..|data| - 1];
      assert forall i | 0 <= i < |init| :: init[i] == data[i];
      SnapshotKeys(init);
    }
  }

  /** A code that occurs more than once takes the count of its last item. */
  lemma {:induction false} SnapshotLastWins(data: seq<ShortLink>, i: nat)
    requires i < |data| && LastWithCode(data, i)
    ensures data[i].code in Snapshot(data) && Snapshot(data)[data[i].code] == ClicksOf(data[i])
    decreases |data|
  {
    if i < |data| - 1 {
      var init := data[..|data| - 1];
      assert init[i] == data[i];
      assert data[|data| - 1].code != data[i].code;
      assert LastWithCode(init, i) by {
        forall j | i < j < |init| ensures init[j].code != init[i].code {
          assert init[j] == data[j];
        }
      }
      SnapshotLastWins(init, i);
    }
  }

  /** Whether item `l` raises a notice against the previous snapshot. */
  predicate Increased(prev: map<string, nat>, l: ShortLink)
  {
    l.code in prev && ClicksOf(l) > prev[l.code]
  }

  /**
   * The toasts one refresh raises, in list order: one for each item whose
   * code the previous snapshot holds and whose count went up, with the
   * difference (`NoticesSound`, `NoticesComplete`, `NoticesExact`).
   */
  function Notices(prev: map<string, nat>, data: seq<ShortLink>): (r: seq<ClickNotice>)
    ensures |r| <= |data|
  {
    if data == [] then []
    else
      var l := data[|data| - 1];
      Notices(prev, data[..|data| - 1]) +
        if Increased(prev, l) then [ClickNotice(l.code, ClicksOf(l) - prev[l.code])] else []
  }

  /**
   * Soundness: every notice is positive, names a code of the previous
   * snapshot, and accounts for an item whose new count is the old count
   * plus the difference.
   */
  lemma {:induction false} NoticesSound(prev: map<string, nat>, data: seq<ShortLink>)
    ensures forall n | n in Notices(prev, data) :: n.diff > 0 && n.code in prev
    ensures forall n | n in Notices(prev, data) ::
      exists i :: 0 <= i < |data| && data[i].code == n.code && ClicksOf(data[i]) == prev[n.code] + n.diff
    decreases |data|
  {
    if data != [] {
      var init := data[..|data| - 1];
      assert forall i | 0 <= i < |init| :: init[i] == data[i];
      NoticesSound(prev, init);
    }
  }

  /** Completeness: every item whose count went up has its notice. */
  lemma {:induction false} NoticesComplete(prev: map<string, nat>, data: seq<ShortLink>, i: nat)
    requires i < |data| && Increased(prev, data[i])
    ensures ClickNotice(data[i].code, ClicksOf(data[i]) - prev[data[i].code]) in Notices(prev, data)
    decreases |data|
  {
    if i < |data| - 1 {
      var init := data[..|data| - 1];
      assert init[i] == data[i];
      NoticesComplete(prev, init, i);
    }
  }

  /** The test `Increased` as a filter predicate. */
  function IncreasedIn(prev: map<string, nat>): ShortLink -> bool
  {
    (l: ShortLink) => Increased(prev, l)
  }

  /**
   * `notices` are, position by position, the notices of `items`: each item
   * went up, and its notice carries its code and its difference.
   */
  predicate NoticesOfItems(prev: map<string, nat>, items: seq<ShortLink>, notices: seq<ClickNotice>)
  {
    |notices| == |items| &&
    forall k | 0 <= k < |items| ::
      Increased(prev, items[k]) &&
      notices[k] == ClickNotice(items[k].code, ClicksOf(items[k]) - prev[items[k].code])
  }

  lemma NoticesOfItemsAppend(prev: map<string, nat>, items: seq<ShortLink>, notices: seq<ClickNotice>, l: ShortLink)
    requires NoticesOfItems(prev, items, notices)
    ensures NoticesOfItems(prev,
      items + (if Increased(prev, l) then [l] else []),
      notices + if Increased(prev, l) then [ClickNotice(l.code, ClicksOf(l) - prev[l.code])] else [])
  {
  }

  /**
   * Exactness: the notices are, in list order, one per item whose count
   * went up and no other, each carrying that item's code and difference.
   */
  lemma {:induction false} NoticesExact(prev: map<string, nat>, data: seq<ShortLink>)
    ensures NoticesOfItems(prev, Filter(data, IncreasedIn(prev)), Notices(prev, data))
    decreases |data|
  {
    if data != [] {
      var init := data[..|data| - 1];
      var l := data[|data| - 1];
      assert data == init + [l];
      FilterAppendOne(init, l, IncreasedIn(prev));
      NoticesExact(prev, init);
      NoticesOfItemsAppend(prev, Filter(init, IncreasedIn(prev)), Notices(prev, init), l);
    }
  }

  /** A refresh in which no count went up raises nothing. */
  lemma {:induction false} NoIncreaseNoNotices(prev: map<string, nat>, data: seq<ShortLink>)
    requires forall k | 0 <= k < |data| :: !Increased(prev, data[k])
    ensures Notices(prev, data) == []
    decreases |data|
  {
    if data != [] {
      var init := data[..|data| - 1];
      assert forall k | 0 <= k < |init| :: init[k] == data[k];
      NoIncreaseNoNotices(prev, init);
    }
  }

  /** The first refresh, against an empty snapshot, raises nothing. */
  lemma FirstRefreshIsQuiet(data: seq<ShortLink>)
    ensures Notices(map[], data) == []
  {
    NoIncreaseNoNotices(map[], data);
  }

  /** Refreshing twice with the same list raises nothing the second time. */
  lemma UnchangedRefreshIsQuiet(data: seq<ShortLink>)
    requires DistinctCodes(data)
    ensures Notices(Snapshot(data), data) == []
  {
    forall k | 0 <= k < |data| ensures !Increased(Snapshot(data), data[k]) {
      SnapshotLastWins(data, k);
    }
    NoIncreaseNoNotices(Snapshot(data), data);
  }

  /**
   * `clicksRef`: the click counts seen at the previous refresh, and the
   * `fetchLinks` step that compares a new list against them.
   */
  class ClickTracker {
    var previous: map<string, nat>

    constructor()
      ensures previous == map[]
    {
      previous := map[];
    }

    /** One refresh: the notices raised, and the new snapshot stored. */
    method Refresh(data: seq<ShortLink>) returns (notices: seq<ClickNotice>)
      modifies this
      ensures notices == Notices(old(previous), data)
      ensures previous == Snapshot(data)
    {
      var prev := previous;
      var next: map<string, nat> := map[];
      notices := [];
      var i := 0;
      while i < |data|
        invariant 0 <= i <= |data|
        invariant next == Snapshot(data[..i])
        invariant notices == Notices(prev, data[..i])
      {
        var l := data[i];
        ghost var prefix := data[..i + 1];
        assert prefix[..i] == data[..i] && prefix[i] == l;
        assert Snapshot(prefix) == Snapshot(data[..i])[l.code := ClicksOf(l)];
        assert Notices(prev, prefix) == Notices(prev, data[..i]) +
          if Increased(prev, l) then [ClickNotice(l.code, ClicksOf(l) - prev[l.code])] else [];
        next := next[l.code := ClicksOf(l)];
        if l.code in prev && ClicksOf(l) > prev[l.code] {
          notices := notices + [ClickNotice(l.code, ClicksOf(l) - prev[l.code])];
        }
        i := i + 1;
      }
      assert data[..i] == data;
      previous := next;
    }
  }

  /**
   * `next[key] = value` on a plain object: the key `__proto__` reaches the
   * inherited prototype setter, which ignores a number, so nothing is stored.
   */
  function StoreAsWritten(m: map<string, nat>, key: string, value: nat): map<string, nat>
  {
    if key == "__proto__" then m else m[key := value]
  }

  /**
   * The snapshot as the page builds it in a plain object. Reading it back,
   * `prev[code] != null && clicks > prev[code]` is `Increased` on this map:
   * an inherited member such as `toString` is not null but never compares
   * below a number.
   */
  function SnapshotAsWritten(data: seq<ShortLink>): (r: map<string, nat>)
    ensures r == Snapshot(data) - {"__proto__"}
  {
    if data == [] then map[]
    else
      var init := data[..|data| - 1];
      var l := data[|data| - 1];
      StoreAsWritten(SnapshotAsWritten(init), l.code, ClicksOf(l))
  }

  /**
   * Three names every plain object inherits are valid custom codes; the
   * other inherited names are longer than 10 characters.
   */
  lemma InheritedNamesAreValidCodes()
    ensures forall name | name in ["__proto__", "toString", "valueOf"] ::
      name in InheritedKeys && Shortener.IsValidCode(Some(name))
  {
    forall name | name in ["__proto__", "toString", "valueOf"]
      ensures name in InheritedKeys && Shortener.IsValidCode(Some(name))
    {
      assert forall i :: 0 <= i < |name| ==> Shortener.IsCodeChar(name[i]);
      Shortener.CodeLengthBoundaries(name);
    }
  }

  /**
   * A link with code `__proto__` whose count rises from 1 to 2 raises no
   * toast as written; the corrected snapshot raises "+1".
   */
  lemma ProtoClicksUnnoticed(target: string)
    ensures Shortener.IsValidCode(Some("__proto__"))
    ensures var before := [ShortLink("__proto__", target, Some(1))];
            var after := [ShortLink("__proto__", target, Some(2))];
            Notices(SnapshotAsWritten(before), after) == [] &&
            Notices(Snapshot(before), after) == [ClickNotice("__proto__", 1)]
  {
    InheritedNamesAreValidCodes();
    assert "__proto__" in ["__proto__", "toString", "valueOf"];
    var before := [ShortLink("__proto__", target, Some(1))];
    var after := [ShortLink("__proto__", target, Some(2))];
    assert before[..0] == [] && after[..0] == [];
  }

  // ---------------------------------------------------------------------
  // Target truncation
  // ---------------------------------------------------------------------

  /** Targets longer than this are cut when collapsed. */
  const TruncateLimit: nat := 60

  /** The horizontal ellipsis appended to a cut target. */
  const Ellipsis: char := '\U{2026}'

  /** A target long enough to be cut gets the "See more"/"Hide" button. */
  predicate HasToggle(text: string)
  {
    |text| > TruncateLimit
  }

  /**
   * The target as displayed: a long, collapsed target is cut to its first 60
   * characters and an ellipsis; anything else is shown whole.
   */
  function ShownTarget(text: string, expanded: bool): (shown: string)
    ensures expanded || !HasToggle(text) ==> shown == text
    ensures !expanded && HasToggle(text) ==>
      |shown| == TruncateLimit + 1 && shown[..TruncateLimit] <= text && shown[TruncateLimit] == Ellipsis
  {
    if expanded then text
    else if HasToggle(text) then text[..TruncateLimit] + [Ellipsis]
    else text
  }

  /** A collapsed target never takes more than 61 characters, and is the whole target or cut from it. */
  lemma CollapsedIsShort(text: string)
    ensures |ShownTarget(text, false)| <= TruncateLimit + 1
    ensures ShownTarget(text, false) == text || ShownTarget(text, false)[..TruncateLimit] <= text
  {
  }

  /** A target without a toggle looks the same whatever the expanded state says. */
  lemma ShortTargetIgnoresToggle(text: string, expanded: bool)
    requires !HasToggle(text)
    ensures ShownTarget(text, expanded) == ShownTarget(text, false)
  {
  }

  /** `!!expanded[code]`: the code has been toggled open. */
  predicate IsExpanded(m: map<string, bool>, code: string)
  {
    code in m && m[code]
  }

  /** Before any toggle every long target starts collapsed, whatever its code. */
  lemma NothingExpandedAtFirst(code: string, text: string)
    ensures ShownTarget(text, IsExpanded(map[], code)) == ShownTarget(text, false)
    ensures HasToggle(text) ==> |ShownTarget(text, IsExpanded(map[], code))| == TruncateLimit + 1
  {
  }

  /** The toggle's `{...prev, [code]: !isExpanded}`: flip one code, keep the rest. */
  function Toggle(m: map<string, bool>, code: string): (r: map<string, bool>)
    ensures IsExpanded(r, code) == !IsExpanded(m, code)
    ensures forall c | c != code :: IsExpanded(r, c) == IsExpanded(m, c)
  {
    m[code := !IsExpanded(m, code)]
  }

  /** Toggling twice shows the target as before. */
  lemma ToggleTwice(m: map<string, bool>, code: string, c: string, text: string)
    ensures ShownTarget(text, IsExpanded(Toggle(Toggle(m, code), code), c)) == ShownTarget(text, IsExpanded(m, c))
  {
  }

  /** The members every plain object inherits from `Object.prototype`. */
  const InheritedKeys: set<string> := {
    "constructor", "hasOwnProperty", "isPrototypeOf", "propertyIsEnumerable",
    "toLocaleString", "toString", "valueOf", "__proto__",
    "__defineGetter__", "__defineSetter__", "__lookupGetter__", "__lookupSetter__"
  }

  /**
   * `!!expanded[code]` on a plain object: an own entry gives its value, an
   * inherited member is an object or a function and so counts as true.
   */
  predicate IsExpandedAsWritten(m: map<string, bool>, code: string)
  {
    if code in m then m[code] else code in InheritedKeys
  }

  /** The as-written reading differs from the intended one only on inherited member names. */
  lemma IsExpandedAsWrittenDiffers(m: map<string, bool>, code: string)
    ensures IsExpandedAsWritten(m, code) != IsExpanded(m, code) <==> code !in m && code in InheritedKeys
  {
  }

  /**
   * A link with the valid custom code `toString` shows a long target in full
   * before anyone has toggled it, while the intended reading cuts it.
   */
  lemma ToStringShownExpanded(text: string)
    requires |text| > TruncateLimit + 1
    ensures Shortener.IsValidCode(Some("toString"))
    ensures ShownTarget(text, IsExpandedAsWritten(map[], "toString")) == text
    ensures ShownTarget(text, IsExpanded(map[], "toString")) != text
  {
    InheritedNamesAreValidCodes();
    assert "toString" in ["__proto__", "toString", "valueOf"];
  }
}
