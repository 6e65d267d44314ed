/** The small part of Qt's value library the core relies on: QString
    searching with case folding, QVariant's string-to-bool conversion,
    QString ordering, QMap built by successive inserts, and the C++
    integer arithmetic of the counter. */
module Qt {

  /** ASCII lower-casing; it stands for Qt's Unicode case folding. */
  function LowerChar(c: char): char
  {
    if 'A' <= c <= 'Z' then (c as int + 32) as char else c
  }

  function Lower(s: string): (r: string)
    ensures |r| == |s|
    ensures forall i :: 0 <= i < |s| ==> r[i] == LowerChar(s[i])
  {
    if s == [] then [] else [LowerChar(s[0])] + Lower(s[1..])
  }

  /** The needle w stands in s starting at position i. */
  predicate OccursAt(s: string, w: string, i: int)
  {
    0 <= i && i + |w| <= |s| && s[i..i + |w|] == w
  }

  /** QString::contains with Qt::CaseSensitive: a left-to-right substring search. */
  function Contains(s: string, w: string): bool
    decreases |s|
  {
    if |w| > |s| then false
    else if s[..|w|] == w then true
    else Contains(s[1..], w)
  }

  /** The search finds the needle exactly when it occurs somewhere. */
  lemma {:induction false} ContainsIff(s: string, w: string)
    ensures Contains(s, w) <==> exists i :: OccursAt(s, w, i)
    decreases |s|
  {
    if |w| > |s| {
    } else if s[..|w|] == w {
      assert OccursAt(s, w, 0);
    } else {
      ContainsIff(s[1..], w);
      if exists i :: OccursAt(s, w, i) {
        var i :| OccursAt(s, w, i);
        assert i != 0;
        assert s[1..][i - 1..i - 1 + |w|] == s[i..i + |w|];
        assert OccursAt(s[1..], w, i - 1);
      }
      if exists j :: OccursAt(s[1..], w, j) {
        var j :| OccursAt(s[1..], w, j);
        assert s[j + 1..j + 1 + |w|] == s[1..][j..j + |w|];
        assert OccursAt(s, w, j + 1);
      }
    }
  }

  /** A needle is found only where it fits, and when it is as long as the
      text only if it is the text. */
  lemma {:induction false} ContainsFits(s: string, w: string)
    requires Contains(s, w)
    ensures |w| <= |s|
    ensures |w| == |s| ==> s == w
    decreases |s|
  {
    if s[..|w|] != w {
      ContainsFits(s[1..], w);
    }
  }

  /** QString::contains with Qt::CaseInsensitive, for a needle already in
      lower case (every needle of the core is). */
  function ContainsNoCase(s: string, w: string): bool
  {
    Contains(Lower(s), w)
  }

  /** QVariant(QString).toBool(): false exactly for the empty string,
      "0" and "false" in any letter case, true for everything else. */
  function StringToBool(s: string): bool
  {
    var l := Lower(s);
    !(l == "" || l == "0" || l == "false")
  }

  /** QString's operator<: lexicographic on character codes, a proper
      prefix sorting first. */
  predicate Less(a: string, b: string)
    decreases |a|
  {
    if a == [] then b != []
    else if b == [] then false
    else if a[0] != b[0] then a[0] < b[0]
    else Less(a[1..], b[1..])
  }

  lemma {:induction false} LessIrreflexive(a: string)
    ensures !Less(a, a)
    decreases |a|
  {
    if a != [] {
      LessIrreflexive(a[1..]);
    }
  }

  /** The entries of a QMap, visited in iteration order: strictly ascending keys. */
  predicate Ascending<V>(entries: seq<(string, V)>)
  {
    forall i, j :: 0 <= i < j < |entries| ==> Less(entries[i].0, entries[j].0)
  }

  lemma AscendingDistinct<V>(entries: seq<(string, V)>, i: int, j: int)
    requires Ascending(entries)
    requires 0 <= i < |entries| && 0 <= j < |entries| && i != j
    ensures entries[i].0 != entries[j].0
  {
    if i < j {
      LessIrreflexive(entries[i].0);
    } else {
      LessIrreflexive(entries[j].0);
    }
  }

  lemma AscendingPrefix<V>(entries: seq<(string, V)>, n: int)
    requires Ascending(entries) && 0 <= n <= |entries|
    ensures Ascending(entries[..n])
  {
    forall x, y | 0 <= x < y < n ensures Less(entries[..n][x].0, entries[..n][y].0) {
      assert entries[..n][x] == entries[x] && entries[..n][y] == entries[y];
    }
  }

  /** The keys a sequence of entries mentions. */
  function KeysOf<V>(entries: seq<(string, V)>): set<string>
  {
    set i | 0 <= i < |entries| :: entries[i].0
  }

  /** The map that inserting the entries one after another into an empty
      QMap builds (QMap::insert and operator[] replace an existing key). */
  function ToMap<V>(entries: seq<(string, V)>): map<string, V>
  {
    if entries == [] then map[]
    else ToMap(entries[..|entries| - 1])[entries[|entries| - 1].0 := entries[|entries| - 1].1]
  }

  /** Every inserted key is present and no other. */
  lemma {:induction false} ToMapKeys<V>(entries: seq<(string, V)>)
    ensures ToMap(entries).Keys == KeysOf(entries)
  {
    if entries != [] {
      var front := entries[..|entries| - 1];
      ToMapKeys(front);
      assert KeysOf(entries) == KeysOf(front) + {entries[|entries| - 1].0} by {
        forall k | k in KeysOf(entries) ensures k in KeysOf(front) + {entries[|entries| - 1].0} {
          var i :| 0 <= i < |entries| && entries[i].0 == k;
          if i < |entries| - 1 {
            assert front[i].0 == k;
          }
        }
        forall k | k in KeysOf(front) ensures k in KeysOf(entries) {
          var i :| 0 <= i < |front| && front[i].0 == k;
          assert entries[i].0 == k;
        }
      }
    }
  }

  /** A key keeps the value of its last insert: entry j is not overwritten
      when no later entry has the same key. */
  lemma {:induction false} ToMapLast<V>(entries: seq<(string, V)>, j: int)
    requires 0 <= j < |entries|
    requires forall k :: j < k < |entries| ==> entries[k].0 != entries[j].0
    ensures entries[j].0 in ToMap(entries) && ToMap(entries)[entries[j].0] == entries[j].1
  {
    if j < |entries| - 1 {
      var front := entries[..|entries| - 1];
      assert front[j] == entries[j];
      ToMapLast(front, j);
    }
  }

  /** With distinct keys every entry's value survives. */
  lemma ToMapAscending<V>(entries: seq<(string, V)>, j: int)
    requires Ascending(entries)
    requires 0 <= j < |entries|
    ensures entries[j].0 in ToMap(entries) && ToMap(entries)[entries[j].0] == entries[j].1
  {
    forall k | j < k < |entries| ensures entries[k].0 != entries[j].0 {
      AscendingDistinct(entries, j, k);
    }
    ToMapLast(entries, j);
  }

  /** C++ `/` on int: the quotient truncated toward zero. */
  function CDiv(a: int, n: int): int
    requires n > 0
  {
    if a >= 0 then a / n else -((-a) / n)
  }

  /** C++ `%` on int: the remainder takes the sign of the dividend. */
  function CMod(a: int, n: int): int
    requires n > 0
  {
    if a >= 0 then a % n else -((-a) % n)
  }

  /** The two operators reconstruct the dividend, with a remainder smaller
      than the divisor and of the dividend's sign. */
  lemma DivModTruncated(a: int, n: int)
    requires n > 0
    ensures CDiv(a, n) * n + CMod(a, n) == a
    ensures -n < CMod(a, n) < n
    ensures a >= 0 ==> 0 <= CMod(a, n) && 0 <= CDiv(a, n)
    ensures a <= 0 ==> CMod(a, n) <= 0 && CDiv(a, n) <= 0
  {
    DivModReconstructs(a, n);
  }

  lemma DivModReconstructs(a: int, n: int)
    requires n > 0
    ensures CDiv(a, n) * n + CMod(a, n) == a
  {
    if a < 0 {
      var q, r := (-a) / n, (-a) % n;
      assert q * n + r == -a;
      assert (-q) * n == -(q * n);
    }
  }

  /** QVariant::toInt() on a wider integer: the value cut to 32 bits and
      read as two's complement. */
  function ToInt32(v: int): (r: int)
    ensures -0x8000_0000 <= r < 0x8000_0000
    ensures (r - v) % 0x1_0000_0000 == 0
  {
    var w := v % 0x1_0000_0000;
    if w < 0x8000_0000 then w else w - 0x1_0000_0000
  }
}
