/**
 * The fight log panel: a newest-first list of text entries. Adding an entry
 * puts it at the top and then deletes the oldest combat entries until at
 * most MAX_COMBAT_ENTRIES are left. Entries whose text mentions one of the
 * three system markers are exempt: they are neither counted nor deleted.
 */
module FightLog {
  import opened Text

  const MAX_COMBAT_ENTRIES: nat := 20

  const FIGHT_STARTED_MARKER := "Fight started"
  const GAME_OVER_MARKER := "Game Over"
  const NEW_FIGHT_MARKER := "New fight started"

  /** The styling class an entry is written with ('system', 'player' or 'npc'). */
  datatype Category = System | PlayerMove | NpcMove

  datatype Entry = Entry(text: string, category: Category)

  /** The trimming test looks at the text only, never at the category. */
  predicate Exempt(e: Entry)
  {
    Contains(e.text, FIGHT_STARTED_MARKER)
    || Contains(e.text, GAME_OVER_MARKER)
    || Contains(e.text, NEW_FIGHT_MARKER)
  }

  /** The characters of the `[mm:ss.mmm] ` stamp written in front of every message. */
  predicate StampChar(c: char)
  {
    IsDigit(c) || c == '[' || c == ']' || c == ':' || c == '.' || c == ' '
  }

  /**
   * The page tests the stamped text; the model tests the message alone. The
   * two agree, since every marker starts with a letter no stamp contains.
   */
  lemma StampKeepsExemption(stamp: string, e: Entry)
    requires forall k :: 0 <= k < |stamp| ==> StampChar(stamp[k])
    ensures Exempt(Entry(stamp + e.text, e.category)) <==> Exempt(e)
  {
    ContainsAfterPrefix(stamp, e.text, FIGHT_STARTED_MARKER);
    ContainsAfterPrefix(stamp, e.text, GAME_OVER_MARKER);
    ContainsAfterPrefix(stamp, e.text, NEW_FIGHT_MARKER);
  }

  /** The combat (non-exempt) entries of `s`, in their order in `s`. */
  function Combat(s: seq<Entry>): seq<Entry>
  {
    if s == [] then [] else (if Exempt(s[0]) then [] else [s[0]]) + Combat(s[1..])
  }

  /** The exempt entries of `s`, in their order in `s`. */
  function Exempted(s: seq<Entry>): seq<Entry>
  {
    if s == [] then [] else (if Exempt(s[0]) then [s[0]] else []) + Exempted(s[1..])
  }

  /**
   * The positions of the combat entries of `s`, in increasing order: the list
   * of combat entries the trimming loop pops from, each entry named by its index.
   */
  function CombatPositions(s: seq<Entry>): seq<nat>
  {
    if s == [] then []
    else CombatPositions(s[..|s| - 1]) + (if Exempt(s[|s| - 1]) then [] else [|s| - 1])
  }

  /**
   * Specification of the trimming: walking from newest to oldest, keep every
   * exempt entry and the first `n` combat entries.
   */
  function KeepNewest(s: seq<Entry>, n: nat): seq<Entry>
  {
    if s == [] then []
    else if Exempt(s[0]) then [s[0]] + KeepNewest(s[1..], n)
    else if n > 0 then [s[0]] + KeepNewest(s[1..], n - 1)
    else KeepNewest(s[1..], 0)
  }

  /** The log after `addLogEntry(e)`: `e` at the top, then trimmed. */
  function AddEntry(log: seq<Entry>, e: Entry): seq<Entry>
  {
    KeepNewest([e] + log, MAX_COMBAT_ENTRIES)
  }

  /** `r` is `s` with some entries deleted and the rest in their original order. */
  ghost predicate IsSubsequence(r: seq<Entry>, s: seq<Entry>)
    decreases |s|
  {
    if s == [] then r == []
    else IsSubsequence(r, s[1..]) || (r != [] && r[0] == s[0] && IsSubsequence(r[1..], s[1..]))
  }

  function Min(a: int, b: int): int
  {
    if a <= b then a else b
  }

  // ---------------------------------------------------------------------------
  // Filters distribute over concatenation

  lemma {:induction false} CombatAppend(a: seq<Entry>, b: seq<Entry>)
    ensures Combat(a + b) == Combat(a) + Combat(b)
  {
    if a != [] {
      assert (a + b)[1..] == a[1..] + b;
      CombatAppend(a[1..], b);
    } else {
      assert a + b == b;
    }
  }

  lemma {:induction false} ExemptedAppend(a: seq<Entry>, b: seq<Entry>)
    ensures Exempted(a + b) == Exempted(a) + Exempted(b)
  {
    if a != [] {
      assert (a + b)[1..] == a[1..] + b;
      ExemptedAppend(a[1..], b);
    } else {
      assert a + b == b;
    }
  }

  /** There is one position per combat entry. */
  lemma {:induction false} CombatPositionsCount(s: seq<Entry>)
    ensures |CombatPositions(s)| == |Combat(s)|
  {
    if s != [] {
      var init, last := s[..|s| - 1], s[|s| - 1];
      assert s == init + [last];
      CombatPositionsCount(init);
      CombatAppend(init, [last]);
    }
  }

  /** Exempt entries at the old end of the log have no positions. */
  lemma {:induction false} CombatPositionsExemptTail(a: seq<Entry>, b: seq<Entry>)
    requires Combat(b) == []
    ensures CombatPositions(a + b) == CombatPositions(a)
    decreases |b|
  {
    if b == [] {
      assert a + b == a;
    } else {
      var init, last := b[..|b| - 1], b[|b| - 1];
      assert b == init + [last];
      CombatAppend(init, [last]);
      assert (a + b)[..|a + b| - 1] == a + init;
      CombatPositionsExemptTail(a, init);
    }
  }

  /** A log is what comes before position `j`, the entry there, and what comes after. */
  lemma SplitAt(s: seq<Entry>, j: nat)
    requires j < |s|
    ensures s == s[..j] + ([s[j]] + s[j + 1..])
  {
  }

  /** Cutting a log with one more entry at the end, before and after position `j`. */
  lemma SplitLast(init: seq<Entry>, last: Entry, j: nat)
    requires j < |init|
    ensures var s := init + [last];
      && s[..|s| - 1] == init && s[|s| - 1] == last
      && s[j + 1..] == init[j + 1..] + [last]
      && s[..j] == init[..j]
  {
  }

  /** An exempt entry appended after the oldest combat entry changes none of its facts. */
  lemma ExemptAfterLastPosition(init: seq<Entry>, last: Entry, j: nat)
    requires Exempt(last)
    requires |CombatPositions(init)| > 0 && j == CombatPositions(init)[|CombatPositions(init)| - 1]
    requires j < |init| && !Exempt(init[j])
    requires Combat(init[j + 1..]) == []
    requires CombatPositions(init[..j]) == CombatPositions(init)[..|CombatPositions(init)| - 1]
    ensures var s := init + [last];
      && CombatPositions(s) == CombatPositions(init)
      && Combat(s[j + 1..]) == []
      && CombatPositions(s[..j]) == CombatPositions(s)[..|CombatPositions(s)| - 1]
  {
    SplitLast(init, last, j);
    assert Combat([last]) == [] by {
      assert [last][1..] == [];
    }
    CombatAppend(init[j + 1..], [last]);
  }

  /** A combat entry at the end of the log is the one the last position names. */
  lemma CombatAtLastPosition(s: seq<Entry>)
    requires s != [] && !Exempt(s[|s| - 1])
    ensures var ps := CombatPositions(s);
      && |ps| > 0 && ps[|ps| - 1] == |s| - 1
      && CombatPositions(s[..|s| - 1]) == ps[..|ps| - 1]
      && Combat(s[|s|..]) == []
  {
    assert s[|s|..] == [];
  }

  /**
   * The last position names the oldest combat entry: everything after it is
   * exempt, and the positions before it are those of the log cut there.
   */
  lemma {:induction false} LastCombatPosition(s: seq<Entry>, j: nat)
    requires |CombatPositions(s)| > 0 && j == CombatPositions(s)[|CombatPositions(s)| - 1]
    ensures j < |s| && !Exempt(s[j])
    ensures Combat(s[j + 1..]) == []
    ensures CombatPositions(s[..j]) == CombatPositions(s)[..|CombatPositions(s)| - 1]
  {
    var init, last := s[..|s| - 1], s[|s| - 1];
    assert s == init + [last];
    if Exempt(last) {
      LastCombatPosition(init, j);
      ExemptAfterLastPosition(init, last, j);
    } else {
      CombatAtLastPosition(s);
    }
  }

  // ---------------------------------------------------------------------------
  // What the trimming keeps

  /** Nothing is deleted while there are at most `n` combat entries. */
  lemma {:induction false} KeepNewestWithinCap(s: seq<Entry>, n: nat)
    requires |Combat(s)| <= n
    ensures KeepNewest(s, n) == s
  {
    if s != [] {
      assert s == [s[0]] + s[1..];
      KeepNewestWithinCap(s[1..], if Exempt(s[0]) then n else n - 1);
    }
  }

  /** Exactly the newest min(n, count) combat entries survive, in order. */
  lemma {:induction false} KeepNewestCombat(s: seq<Entry>, n: nat)
    ensures Combat(KeepNewest(s, n)) == Combat(s)[..Min(n, |Combat(s)|)]
  {
    if s != [] {
      var rest := KeepNewest(s[1..], if Exempt(s[0]) || n == 0 then n else n - 1);
      KeepNewestCombat(s[1..], if Exempt(s[0]) || n == 0 then n else n - 1);
      CombatAppend([s[0]], rest);
      if !Exempt(s[0]) && n == 0 {
        assert KeepNewest(s, n) == rest;
      } else {
        assert KeepNewest(s, n) == [s[0]] + rest;
      }
    }
  }

  /** Every exempt entry survives, in order. */
  lemma {:induction false} KeepNewestExempted(s: seq<Entry>, n: nat)
    ensures Exempted(KeepNewest(s, n)) == Exempted(s)
  {
    if s != [] {
      var m := if Exempt(s[0]) || n == 0 then n else n - 1;
      KeepNewestExempted(s[1..], m);
      ExemptedAppend([s[0]], KeepNewest(s[1..], m));
    }
  }

  /** Surviving entries keep their relative order. */
  lemma {:induction false} KeepNewestSubsequence(s: seq<Entry>, n: nat)
    ensures IsSubsequence(KeepNewest(s, n), s)
  {
    if s != [] {
      var m := if Exempt(s[0]) || n == 0 then n else n - 1;
      KeepNewestSubsequence(s[1..], m);
      if Exempt(s[0]) || n > 0 {
        assert ([s[0]] + KeepNewest(s[1..], m))[1..] == KeepNewest(s[1..], m);
      }
    }
  }

  /** Every surviving entry was in the log before. */
  lemma {:induction false} KeepNewestElements(s: seq<Entry>, n: nat)
    ensures forall x :: x in KeepNewest(s, n) ==> x in s
  {
    if s != [] {
      KeepNewestElements(s[1..], if Exempt(s[0]) || n == 0 then n else n - 1);
    }
  }

  /** Keeping the newest `k` of the newest `n` is keeping the newest `k`. */
  lemma {:induction false} KeepNewestTwice(s: seq<Entry>, n: nat, k: nat)
    requires k <= n
    ensures KeepNewest(KeepNewest(s, n), k) == KeepNewest(s, k)
  {
    if s != [] {
      var x, t := s[0], s[1..];
      if Exempt(x) {
        KeepNewestTwice(t, n, k);
        assert ([x] + KeepNewest(t, n))[1..] == KeepNewest(t, n);
      } else if n == 0 {
        KeepNewestTwice(t, 0, 0);
      } else {
        assert ([x] + KeepNewest(t, n - 1))[1..] == KeepNewest(t, n - 1);
        if k > 0 {
          KeepNewestTwice(t, n - 1, k - 1);
        } else {
          KeepNewestTwice(t, n - 1, 0);
        }
      }
    }
  }

  /** A non-empty log is its newest entry followed by the rest, whatever comes after. */
  lemma SplitFirst(a: seq<Entry>, b: seq<Entry>)
    requires a != []
    ensures a == [a[0]] + a[1..]
    ensures a + b == [a[0]] + (a[1..] + b)
  {
    assert a == [a[0]] + a[1..];
  }

  /** What the trimming does with the newest entry of the log. */
  lemma KeepNewestCons(y: Entry, t: seq<Entry>, n: nat)
    ensures KeepNewest([y] + t, n) ==
      if Exempt(y) then [y] + KeepNewest(t, n)
      else if n > 0 then [y] + KeepNewest(t, n - 1)
      else KeepNewest(t, 0)
  {
    assert ([y] + t)[0] == y && ([y] + t)[1..] == t;
  }

  /**
   * Deleting the oldest combat entry `x` (only exempt entries `b` follow it)
   * changes nothing about the newest `n` when `x` was not among them.
   */
  lemma {:induction false} KeepNewestDropsOldest(a: seq<Entry>, x: Entry, b: seq<Entry>, n: nat)
    requires !Exempt(x) && Combat(b) == [] && n <= |Combat(a)|
    ensures KeepNewest(a + ([x] + b), n) == KeepNewest(a + b, n)
  {
    if a == [] {
      assert a + ([x] + b) == [x] + b;
      assert ([x] + b)[1..] == b;
      assert a + b == b;
    } else {
      var y, t := a[0], a[1..];
      var m := if Exempt(y) || n == 0 then n else n - 1;
      SplitFirst(a, [x] + b);
      SplitFirst(a, b);
      CombatAppend([y], t);
      KeepNewestDropsOldest(t, x, b, m);
      KeepNewestCons(y, t + ([x] + b), n);
      KeepNewestCons(y, t + b, n);
    }
  }

  /**
   * One round of the trimming loop: deleting the entry at the last combat
   * position of a log that holds the newest `n` combat entries of `start`
   * leaves the newest `n - 1`, and the position list loses its last element.
   */
  lemma DeleteOldestCombat(s: seq<Entry>, start: seq<Entry>, j: nat)
    requires |CombatPositions(s)| > 0 && j == CombatPositions(s)[|CombatPositions(s)| - 1]
    requires s == KeepNewest(start, |CombatPositions(s)|)
    ensures j < |s|
    ensures s[..j] + s[j + 1..] == KeepNewest(start, |CombatPositions(s)| - 1)
    ensures CombatPositions(s[..j] + s[j + 1..]) == CombatPositions(s)[..|CombatPositions(s)| - 1]
  {
    var n := |CombatPositions(s)|;
    LastCombatPosition(s, j);
    var a, x, b := s[..j], s[j], s[j + 1..];
    SplitAt(s, j);
    CombatPositionsCount(a);
    KeepNewestDropsOldest(a, x, b, n - 1);
    CombatPositionsExemptTail(a, b);
    CombatAppend(a, b);
    KeepNewestWithinCap(a + b, n - 1);
    KeepNewestTwice(start, n, n - 1);
  }

  /**
   * The state of the trimming loop: `combat` lists the positions of the combat
   * entries of `log`, and `log` holds the newest `|combat|` combat entries of
   * `start`; at least the cap of them, unless there were never more.
   */
  ghost predicate Trimming(log: seq<Entry>, combat: seq<nat>, start: seq<Entry>)
  {
    && combat == CombatPositions(log)
    && |combat| <= |Combat(start)|
    && (MAX_COMBAT_ENTRIES <= |combat| || |combat| == |Combat(start)|)
    && log == KeepNewest(start, |combat|)
  }

  /** One round of the loop: delete the entry at the last position, pop that position. */
  lemma TrimRound(log: seq<Entry>, combat: seq<nat>, start: seq<Entry>)
    requires Trimming(log, combat, start) && |combat| > MAX_COMBAT_ENTRIES
    ensures combat[|combat| - 1] < |log|
    ensures Trimming(log[..combat[|combat| - 1]] + log[combat[|combat| - 1] + 1..], combat[..|combat| - 1], start)
  {
    DeleteOldestCombat(log, start, combat[|combat| - 1]);
  }

  /**
   * When the trimming loop stops, the newest `n` it has kept are the newest
   * MAX_COMBAT_ENTRIES: either `n` is the cap or there were never more than `n`.
   */
  lemma TrimmedToCap(s: seq<Entry>, n: nat)
    requires n <= MAX_COMBAT_ENTRIES
    requires n == MAX_COMBAT_ENTRIES || n == |Combat(s)|
    ensures KeepNewest(s, n) == KeepNewest(s, MAX_COMBAT_ENTRIES)
  {
    if n < MAX_COMBAT_ENTRIES {
      KeepNewestWithinCap(s, n);
      KeepNewestWithinCap(s, MAX_COMBAT_ENTRIES);
    }
  }

  /** What `addLogEntry` promises, for any log before the call. */
  lemma AddEntryProperties(log: seq<Entry>, e: Entry)
    ensures var r := AddEntry(log, e);
      && r != [] && r[0] == e
      && |Combat(r)| <= MAX_COMBAT_ENTRIES
      && Combat(r) == Combat([e] + log)[..Min(MAX_COMBAT_ENTRIES, |Combat([e] + log)|)]
      && Exempted(r) == Exempted([e] + log)
      && IsSubsequence(r, [e] + log)
      && (|Combat([e] + log)| <= MAX_COMBAT_ENTRIES ==> r == [e] + log)
  {
    var s := [e] + log;
    assert s[0] == e && s[1..] == log;
    KeepNewestCombat(s, MAX_COMBAT_ENTRIES);
    KeepNewestExempted(s, MAX_COMBAT_ENTRIES);
    KeepNewestSubsequence(s, MAX_COMBAT_ENTRIES);
    if |Combat(s)| <= MAX_COMBAT_ENTRIES {
      KeepNewestWithinCap(s, MAX_COMBAT_ENTRIES);
    }
  }

  /** The log-content element of the page. */
  class LogPanel {
    var entries: seq<Entry>

    constructor ()
      ensures entries == []
    {
      entries := [];
    }

    /** `innerHTML = ''`. */
    method Clear()
      modifies this
      ensures entries == []
    {
      entries := [];
    }

    /** `addLogEntry(text, category)` without its timestamp. */
    method Add(text: string, category: Category)
      modifies this
      ensures entries == AddEntry(old(entries), Entry(text, category))
      ensures Exempted(entries) == Exempted([Entry(text, category)] + old(entries))
      ensures IsSubsequence(entries, [Entry(text, category)] + old(entries))
    {
      entries := [Entry(text, category)] + entries;
      ghost var start := entries;
      KeepNewestWithinCap(start, |Combat(start)|);
      CombatPositionsCount(start);
      var combat := CombatPositions(entries);
      while |combat| > MAX_COMBAT_ENTRIES
        invariant Trimming(entries, combat, start)
        decreases |combat|
      {
        TrimRound(entries, combat, start);
        var last := combat[|combat| - 1];
        entries := entries[..last] + entries[last + 1..];
        combat := combat[..|combat| - 1];
      }
      TrimmedToCap(start, |combat|);
      AddEntryProperties(old(entries), Entry(text, category));
    }
  }
}
