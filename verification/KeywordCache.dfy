/** The keyword index of shared files (kwcache.hpp, querylang.hpp). */
module KeywordCache {
  import opened Wrappers

  predicate IsAlnum(c: char) {
    '0' <= c <= '9' || 'A' <= c <= 'Z' || 'a' <= c <= 'z'
  }

  function LowerChar(c: char): char {
    if 'A' <= c <= 'Z' then c + 32 as char else c
  }

  function Lower(s: string): (r: string)
    ensures |r| == |s| && forall i :: 0 <= i < |s| ==> r[i] == LowerChar(s[i])
  {
    seq(|s|, i requires 0 <= i < |s| => LowerChar(s[i]))
  }

  /** s[i..j] is a run of alphanumeric characters that cannot be extended. */
  predicate MaximalRun(s: string, i: nat, j: nat) {
    && i < j <= |s| && (forall k :: i <= k < j ==> IsAlnum(s[k]))
    && (i > 0 ==> !IsAlnum(s[i - 1])) && (j < |s| ==> !IsAlnum(s[j]))
  }

  /** The keywords of a text: its maximal runs of at least three characters, in lower case. */
  ghost predicate IsKeyword(s: string, kw: string) {
    exists i: nat, j: nat :: MaximalRun(s, i, j) && j - i >= 3 && kw == Lower(s[i..j])
  }

  /** A keyword whose run ends before position end. */
  ghost predicate KeywordBefore(s: string, end: nat, kw: string) {
    exists i: nat, j: nat :: MaximalRun(s, i, j) && j <= end && j - i >= 3 && kw == Lower(s[i..j])
  }

  /** The small forms of the letters of ASCII; every other character is its own. */
  lemma SmallLetters(i: nat)
    requires i < 128
    ensures IsAlnum(i as char) <==> 48 <= i < 58 || 65 <= i < 91 || 97 <= i < 123
    ensures LowerChar(i as char) == if 65 <= i < 91 then "abcdefghijklmnopqrstuvwxyz"[i - 65] else i as char
  {
  }

  /** Texts that differ only in capital letters have the same keywords. */
  lemma IgnoresCase(s: string, t: string, kw: string)
    requires Lower(s) == Lower(t)
    ensures IsKeyword(s, kw) <==> IsKeyword(t, kw)
  {
    assert |s| == |Lower(s)| == |t|;
    forall k | 0 <= k < |s| ensures LowerChar(s[k]) == LowerChar(t[k]) && (IsAlnum(s[k]) <==> IsAlnum(t[k])) {
      assert Lower(s)[k] == Lower(t)[k];
    }
    forall i: nat, j: nat ensures MaximalRun(s, i, j) <==> MaximalRun(t, i, j) {}
    forall i: nat, j: nat | MaximalRun(s, i, j) ensures Lower(s[i..j]) == Lower(t[i..j]) {}
  }

  method ExtractKeywords(s: string) returns (out: set<string>)
    ensures forall kw :: kw in out <==> IsKeyword(s, kw)
  {
    out := {};
    var i := 0;
    while i < |s|
      invariant 0 <= i <= |s|
      invariant 0 < i < |s| ==> !IsAlnum(s[i])
      invariant forall kw :: kw in out <==> KeywordBefore(s, i, kw)
    {
      ghost var start := i;
      while i < |s| && !IsAlnum(s[i])
        invariant start <= i <= |s|
        invariant forall k :: start <= k < i ==> !IsAlnum(s[k])
        invariant start == 0 || start == |s| || !IsAlnum(s[start])
      {
        i := i + 1;
      }
      var w := i;
      assert w > 0 ==> !IsAlnum(s[w - 1]);
      while i < |s| && IsAlnum(s[i])
        invariant w <= i <= |s|
        invariant forall k :: w <= k < i ==> IsAlnum(s[k])
      {
        i := i + 1;
      }
      NextRun(s, start, w, i);
      if i - w >= 3 { out := out + {Lower(s[w..i])}; }
    }
  }

  /** Between start and i there is one run at most, from w on. */
  lemma NextRun(s: string, start: nat, w: nat, i: nat)
    requires start <= w <= i <= |s|
    requires forall k :: start <= k < w ==> !IsAlnum(s[k])
    requires forall k :: w <= k < i ==> IsAlnum(s[k])
    requires w > 0 ==> !IsAlnum(s[w - 1])
    requires i < |s| ==> !IsAlnum(s[i])
    requires w == i ==> i == |s|
    ensures forall kw :: KeywordBefore(s, i, kw) <==> KeywordBefore(s, start, kw) || (i - w >= 3 && kw == Lower(s[w..i]))
  {
    forall kw | KeywordBefore(s, i, kw) ensures KeywordBefore(s, start, kw) || (i - w >= 3 && kw == Lower(s[w..i])) {
      var a: nat, b: nat :| MaximalRun(s, a, b) && b <= i && b - a >= 3 && kw == Lower(s[a..b]);
      if b > start {
        assert IsAlnum(s[b - 1]);
        assert b > w;
        if a != w || b != i { assert false; }
      }
    }
    if i - w >= 3 { assert MaximalRun(s, w, i); }
  }

  /** The characters of the words of a query together. */
  ghost function TotalSize(words: set<string>): nat {
    if words == {} then 0 else var w :| w in words; |w| + TotalSize(words - {w})
  }

  lemma {:induction false} SizeWithout(words: set<string>, w: string)
    requires w in words
    ensures TotalSize(words) == |w| + TotalSize(words - {w})
    decreases |words|
  {
    var v :| v in words && TotalSize(words) == |v| + TotalSize(words - {v});
    if v != w {
      SizeWithout(words - {v}, w);
      SizeWithout(words - {w}, v);
      assert words - {v} - {w} == words - {w} - {v};
    }
  }

  class Cache<T(==)> {
    var cache: map<string, set<T>>
    var table: map<T, set<string>>

    /** The index and the table hold the same pairs, and no empty sets. */
    ghost predicate Valid()
      reads this
    {
      && (forall key, kw :: key in table && kw in table[key] ==> kw in cache && key in cache[kw])
      && (forall key, kw :: kw in cache && key in cache[kw] ==> key in table && kw in table[key])
      && (forall kw :: kw in cache ==> cache[kw] != {})
      && (forall key :: key in table ==> table[key] != {})
    }

    constructor ()
      ensures Valid() && table == map[]
    {
      cache, table := map[], map[];
    }

    method Remove(key: T)
      requires Valid()
      modifies this
      ensures Valid() && table == old(table) - {key}
    {
      if key !in table { return; }
      RemoveKeywords(key);
      table := table - {key};
    }

    /** The loop of Remove. */
    method RemoveKeywords(key: T)
      requires Valid() && key in table
      modifies this`cache
      ensures forall k, kw :: k in table && k != key && kw in table[k] ==> kw in cache && k in cache[kw]
      ensures forall k, kw :: kw in cache && k in cache[kw] ==> k != key && k in table && kw in table[k]
      ensures forall kw :: kw in cache ==> cache[kw] != {}
    {
      var rest := table[key];
      while rest != {}
        invariant rest <= table[key]
        invariant forall k, kw :: k in table && (k != key || kw in rest) && kw in table[k] ==> kw in cache && k in cache[kw]
        invariant forall k, kw :: kw in cache && k in cache[kw] ==> k in table && kw in table[k] && (k == key ==> kw in rest)
        invariant forall kw :: kw in cache ==> cache[kw] != {}
      {
        var kw :| kw in rest;
        rest := rest - {kw};
        ghost var others := cache[kw] - {key};
        assert forall k :: k in cache[kw] && k != key ==> k in others;
        cache := cache[kw := cache[kw] - {key}];
        if cache[kw] == {} { cache := cache - {kw}; }
      }
    }

    method Add(key: T, str: string)
      requires Valid()
      modifies this
      ensures Valid()
      ensures key in table <==> exists kw :: IsKeyword(str, kw)
      ensures key in table ==> forall kw :: kw in table[key] <==> IsKeyword(str, kw)
      ensures table - {key} == old(table) - {key}
    {
      Remove(key);
      var kws := ExtractKeywords(str);
      if kws == {} { return; }
      InsertKeywords(key, kws);
      var kw :| kw in kws;
      assert IsKeyword(str, kw);
    }

    /** The loop of Add. */
    method InsertKeywords(key: T, kws: set<string>)
      requires Valid() && key !in table && kws != {}
      modifies this
      ensures Valid() && table == old(table)[key := kws]
    {
      var rest := kws;
      while rest != {}
        invariant rest <= kws && table == old(table)
        invariant forall k, kw :: (k in table && kw in table[k]) || (k == key && kw in kws - rest) ==> kw in cache && k in cache[kw]
        invariant forall k, kw :: kw in cache && k in cache[kw] ==> (k in table && kw in table[k]) || (k == key && kw in kws - rest)
        invariant forall kw :: kw in cache ==> cache[kw] != {}
      {
        var kw :| kw in rest;
        rest := rest - {kw};
        cache := cache[kw := (if kw in cache then cache[kw] else {}) + {key}];
      }
      table := table[key := kws];
    }

    /** What the query means: the keys that have all words of the one and none of the other. */
    ghost predicate Matches(wanted: set<string>, unwanted: set<string>, key: T)
      reads this
    {
      key in table && (forall kw :: kw in wanted ==> kw in table[key]) && (forall kw :: kw in unwanted ==> kw !in table[key])
    }

    /** Find: the longest wanted word is looked up in the index, and its keys are filtered by
        the other words. Queries of fewer than five characters find nothing. */
    method Find(wanted: set<string>, unwanted: set<string>) returns (results: set<T>)
      requires Valid()
      ensures TotalSize(wanted) < 5 ==> results == {}
      ensures TotalSize(wanted) >= 5 ==> forall key :: key in results <==> Matches(wanted, unwanted, key)
    {
      var sum, rest := 0, wanted;
      while rest != {}
        invariant rest <= wanted && sum + TotalSize(rest) == TotalSize(wanted)
      {
        var kw :| kw in rest;
        SizeWithout(rest, kw);
        sum, rest := sum + |kw|, rest - {kw};
      }
      if sum < 5 || wanted == {} { return {}; }
      var longest := Longest(wanted);
      if longest !in cache { return {}; }
      results := FilterAll(cache[longest], wanted - {longest}, unwanted);
    }

    /** The word of the query that is looked up. */
    method Longest(words: set<string>) returns (longest: string)
      requires words != {}
      ensures longest in words && forall w :: w in words ==> |w| <= |longest|
    {
      longest :| longest in words;
      var rest := words;
      while rest != {}
        invariant rest <= words && longest in words
        invariant forall w :: w in words - rest ==> |w| <= |longest|
      {
        var w :| w in rest;
        rest := rest - {w};
        if |longest| < |w| { longest := w; }
      }
    }

    /** The two filtering loops of Find. */
    method FilterAll(keys: set<T>, wanted: set<string>, unwanted: set<string>) returns (results: set<T>)
      requires Valid() && forall key :: key in keys ==> key in table
      ensures forall key :: key in results <==> key in keys && Matches(wanted, unwanted, key)
    {
      results := keys;
      var rest := wanted;
      while rest != {}
        invariant rest <= wanted
        invariant forall key :: key in results <==> key in keys && forall kw :: kw in wanted - rest ==> kw in table[key]
      {
        var kw :| kw in rest;
        rest := rest - {kw};
        results := set key | key in results && kw in table[key];
      }
      rest := unwanted;
      while rest != {}
        invariant rest <= unwanted
        invariant forall key :: key in results <==>
          key in keys && (forall kw :: kw in wanted ==> kw in table[key]) && (forall kw :: kw in unwanted - rest ==> kw !in table[key])
      {
        var kw :| kw in rest;
        rest := rest - {kw};
        results := set key | key in results && kw !in table[key];
      }
    }
  }

  datatype Operation<T> = Add(key: T, str: string) | Remove(key: T)

  /** The text a key was last added with, if it was not removed since. */
  function LastText<T(==)>(operations: seq<Operation<T>>, key: T): Option<string> {
    if operations == [] then None
    else
      var last := operations[|operations| - 1];
      if last.key != key then LastText(operations[..|operations| - 1], key)
      else if last.Add? then Some(last.str)
      else None
  }

  ghost predicate Has(text: Option<string>, kw: string) {
    text.Some? && IsKeyword(text.value, kw)
  }

  /** The table holds the keywords of the last text of every key. */
  ghost predicate UpToDate<T(!new)>(table: map<T, set<string>>, operations: seq<Operation<T>>) {
    && (forall key, kw :: key in table && kw in table[key] ==> Has(LastText(operations, key), kw))
    && (forall key, kw :: Has(LastText(operations, key), kw) ==> key in table && kw in table[key])
  }

  lemma AddKeeps<T(!new)>(table: map<T, set<string>>, table': map<T, set<string>>, operations: seq<Operation<T>>, o: Operation<T>)
    requires UpToDate(table, operations)
    requires table' - {o.key} == table - {o.key}
    requires o.Remove? ==> o.key !in table'
    requires o.Add? ==> (o.key in table' <==> exists kw :: IsKeyword(o.str, kw))
    requires o.Add? && o.key in table' ==> forall kw :: kw in table'[o.key] <==> IsKeyword(o.str, kw)
    ensures UpToDate(table', operations + [o])
  {
    assert (operations + [o])[..|operations|] == operations;
    forall key, kw ensures Has(LastText(operations + [o], key), kw) <==> key in table' && kw in table'[key] {
      if key == o.key {
        assert LastText(operations + [o], key) == if o.Add? then Some(o.str) else None;
        if o.Add? && IsKeyword(o.str, kw) { assert key in table'; }
      } else {
        assert LastText(operations + [o], key) == LastText(operations, key);
        assert key in table' - {o.key} <==> key in table - {o.key};
        assert key in table ==> (table' - {o.key})[key] == (table - {o.key})[key];
      }
    }
  }

  /** After any run of additions and removals, a search with enough characters finds exactly the
      keys whose last text has all of the one words and none of the other. */
  method Search<T(==,!new)>(operations: seq<Operation<T>>, wanted: set<string>, unwanted: set<string>) returns (results: set<T>)
    ensures TotalSize(wanted) >= 5 ==> forall key :: key in results <==>
      (forall kw :: kw in wanted ==> Has(LastText(operations, key), kw)) && (forall kw :: kw in unwanted ==> !Has(LastText(operations, key), kw))
    ensures TotalSize(wanted) < 5 ==> results == {}
  {
    var c := new Cache<T>();
    for i := 0 to |operations|
      invariant c.Valid() && fresh(c) && UpToDate(c.table, operations[..i])
    {
      var o := operations[i];
      ghost var table := c.table;
      match o {
        case Add(key, str) => c.Add(key, str);
        case Remove(key) => c.Remove(key);
      }
      AddKeeps(table, c.table, operations[..i], o);
      assert operations[..i + 1] == operations[..i] + [o];
    }
    assert operations[..|operations|] == operations;
    results := c.Find(wanted, unwanted);
    if TotalSize(wanted) >= 5 { assert exists kw :: kw in wanted; }
  }
}
