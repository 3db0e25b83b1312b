/**
 * The text keys of the regional and annual reports: the two fields are joined as
 * "a|b", the projects are grouped by that string, and each key is split back on
 * '|' to recover the fields, taking the first two pieces.
 *
 * The join is not injective once a field holds a '|', so the report groups by the
 * pair itself (`RegionalReport.RegionKey`, `AnnualReport.YearTypeKey`); this module
 * keeps the text route, proves that it agrees with the pair route on separator-free
 * input, and exhibits two projects that it merges.
 */
module KeyText {
  import opened Wrappers
  import opened Projects
  import opened Grouping
  import RegionalReport

  const Separator := '|'

  /** The string template `"${a}|${b}"`. */
  function JoinKey(a: string, b: string): (k: string)
    ensures |k| == |a| + |b| + 1 && k[|a|] == Separator
    ensures k[..|a|] == a && k[|a| + 1..] == b
  {
    a + [Separator] + b
  }

  /** Kotlin's `split(sep)`: the pieces between separators, empty pieces kept, so never empty. */
  function Split(s: string, sep: char): (parts: seq<string>)
    ensures |parts| >= 1
    decreases |s|
  {
    if s == [] then [[]]
    else if s[0] == sep then [[]] + Split(s[1..], sep)
    else
      var rest := Split(s[1..], sep);
      [[s[0]] + rest[0]] + rest[1..]
  }

  /** Glues pieces back together with `sep` between neighbours (`joinToString(sep)`). */
  function JoinPieces(parts: seq<string>, sep: char): string
    requires |parts| >= 1
  {
    if |parts| == 1 then parts[0] else parts[0] + [sep] + JoinPieces(parts[1..], sep)
  }

  /** The fields read back from a key: the first two pieces, None where `parts[1]` would throw. */
  function Decode(key: string): (r: Option<(string, string)>)
    ensures r.None? <==> |Split(key, Separator)| < 2
  {
    var parts := Split(key, Separator);
    if |parts| < 2 then None else Some((parts[0], parts[1]))
  }

  /** Splitting loses nothing: the pieces joined back give the original text. */
  lemma {:induction false} SplitJoinPieces(s: string, sep: char)
    ensures JoinPieces(Split(s, sep), sep) == s
  {
    if s != [] {
      var rest := Split(s[1..], sep);
      SplitJoinPieces(s[1..], sep);
      if s[0] == sep {
        assert Split(s, sep)[1..] == rest;
        assert s == [sep] + s[1..];
      } else if |rest| == 1 {
        assert s == [s[0]] + s[1..];
      } else {
        var parts := Split(s, sep);
        assert parts[1..] == rest[1..];
        assert s == [s[0]] + s[1..];
      }
    }
  }

  /** No piece holds the separator. */
  lemma {:induction false} SplitPiecesFree(s: string, sep: char)
    ensures forall i :: 0 <= i < |Split(s, sep)| ==> sep !in Split(s, sep)[i]
  {
    if s != [] {
      SplitPiecesFree(s[1..], sep);
      var rest := Split(s[1..], sep);
      if s[0] != sep {
        var parts := Split(s, sep);
        forall i | 0 <= i < |parts| ensures sep !in parts[i] {
          if i == 0 {
            assert parts[0] == [s[0]] + rest[0];
          } else {
            assert parts[i] == rest[i];
          }
        }
      }
    }
  }

  /** The first piece is a prefix of the text. */
  lemma {:induction false} SplitHeadPrefix(s: string, sep: char)
    ensures Split(s, sep)[0] <= s
  {
    if s != [] && s[0] != sep {
      SplitHeadPrefix(s[1..], sep);
      assert s == [s[0]] + s[1..];
    }
  }

  /** Text without the separator is a single piece. */
  lemma {:induction false} SplitNoSeparator(s: string, sep: char)
    requires sep !in s
    ensures Split(s, sep) == [s]
  {
    if s != [] {
      SplitNoSeparator(s[1..], sep);
      assert s == [s[0]] + s[1..];
    }
  }

  /** Text holding the separator splits into two pieces or more. */
  lemma {:induction false} SplitSeparated(s: string, sep: char)
    requires sep in s
    ensures |Split(s, sep)| >= 2
  {
    if s[0] != sep {
      SplitSeparated(s[1..], sep);
    }
  }

  /** A separator-free prefix comes off as the first piece. */
  lemma {:induction false} SplitAfterFree(a: string, sep: char, b: string)
    requires sep !in a
    ensures Split(a + [sep] + b, sep) == [a] + Split(b, sep)
  {
    if a == [] {
      assert a + [sep] + b == [sep] + b;
      assert ([sep] + b)[1..] == b;
    } else {
      SplitAfterFree(a[1..], sep, b);
      assert (a + [sep] + b)[1..] == a[1..] + [sep] + b;
      assert a == [a[0]] + a[1..];
    }
  }

  /**
   * A joined key always has a second piece, and it decodes to the pair it was built
   * from exactly when neither field holds the separator.
   */
  lemma DecodeJoinKey(a: string, b: string)
    ensures Decode(JoinKey(a, b)).Some?
    ensures Decode(JoinKey(a, b)) == Some((a, b)) <==> Separator !in a && Separator !in b
  {
    var k := JoinKey(a, b);
    assert Separator in k by { assert k[|a|] == Separator; }
    SplitSeparated(k, Separator);
    var parts := Split(k, Separator);
    if Separator !in a {
      SplitAfterFree(a, Separator, b);
      if Separator !in b {
        SplitNoSeparator(b, Separator);
      } else {
        SplitPiecesFree(b, Separator);
        assert Separator !in Split(b, Separator)[0];
      }
    } else {
      SplitPiecesFree(k, Separator);
      assert Separator !in parts[0];
    }
  }

  /** On separator-free fields the join is injective. */
  lemma JoinKeyInjective(a: string, b: string, c: string, d: string)
    requires Separator !in a && Separator !in b && Separator !in c && Separator !in d
    ensures JoinKey(a, b) == JoinKey(c, d) <==> a == c && b == d
  {
    DecodeJoinKey(a, b);
    DecodeJoinKey(c, d);
  }

  /** With a separator-free first field, the second field comes back cut at its first separator. */
  lemma DecodeTruncatesSecond(a: string, b: string)
    requires Separator !in a
    ensures Decode(JoinKey(a, b)) == Some((a, Split(b, Separator)[0]))
    ensures Split(b, Separator)[0] <= b
  {
    SplitAfterFree(a, Separator, b);
    SplitHeadPrefix(b, Separator);
  }

  /** The key the regional report groups by as written. */
  function JoinedRegionKey(p: Project): string
  {
    JoinKey(p.region, p.mainIsland)
  }

  ghost predicate SeparatorFree(projects: seq<Project>)
  {
    forall i :: 0 <= i < |projects| ==> Separator !in projects[i].region && Separator !in projects[i].mainIsland
  }

  /** The (region, mainIsland) pairs of the regional rows as written: each string group's key, split. */
  function AsWrittenPairs(projects: seq<Project>): (r: seq<Option<(string, string)>>)
    ensures |r| == |GroupBy(projects, JoinedRegionKey)|
  {
    var gs := GroupBy(projects, JoinedRegionKey);
    seq(|gs|, i requires 0 <= i < |gs| => Decode(gs[i].0))
  }

  /** On separator-free input the text keys are the joined pair keys, in the same order. */
  lemma {:induction false} JoinedKeysMirrorPairs(projects: seq<Project>)
    requires SeparatorFree(projects)
    ensures var ts, ps := Keys(projects, JoinedRegionKey), Keys(projects, RegionalReport.RegionKey);
      |ts| == |ps| && forall i :: 0 <= i < |ts| ==> ts[i] == JoinKey(ps[i].0, ps[i].1)
  {
    if projects != [] {
      var init, last := projects[..|projects| - 1], projects[|projects| - 1];
      SeparatorFreeInit(projects);
      JoinedKeysMirrorPairs(init);
      var ts, ps := Keys(init, JoinedRegionKey), Keys(init, RegionalReport.RegionKey);
      var t, p := JoinedRegionKey(last), RegionalReport.RegionKey(last);
      assert Separator !in p.0 && Separator !in p.1 by { assert last == projects[|projects| - 1]; }
      forall i | 0 <= i < |ps| ensures Separator !in ps[i].0 && Separator !in ps[i].1 {
        KeysMembership(init, RegionalReport.RegionKey, ps[i]);
        var n :| 0 <= n < |init| && RegionalReport.RegionKey(init[n]) == ps[i];
      }
      if p in ps {
        var i :| 0 <= i < |ps| && ps[i] == p;
        assert ts[i] == t;
      } else {
        forall i | 0 <= i < |ts| ensures ts[i] != t {
          JoinKeyInjective(ps[i].0, ps[i].1, p.0, p.1);
        }
      }
    }
  }

  /**
   * On separator-free input the as-written pairs are exactly the row keys of the
   * pair-grouped report rows, in the same order.
   */
  lemma AsWrittenAgrees(projects: seq<Project>)
    requires SeparatorFree(projects)
    ensures var ps := Keys(projects, RegionalReport.RegionKey);
      AsWrittenPairs(projects) == seq(|ps|, i requires 0 <= i < |ps| => Some(ps[i]))
    ensures var rows := RegionalReport.GroupRows(projects);
      |AsWrittenPairs(projects)| == |rows|
      && forall i :: 0 <= i < |rows| ==> AsWrittenPairs(projects)[i] == Some(RegionalReport.RowKey(rows[i]))
  {
    var ps := Keys(projects, RegionalReport.RegionKey);
    GroupByIsPartition(projects, JoinedRegionKey);
    JoinedKeysMirrorPairs(projects);
    RegionalReport.GroupRowKeys(projects);
    var gs := GroupBy(projects, JoinedRegionKey);
    forall i | 0 <= i < |ps| ensures AsWrittenPairs(projects)[i] == Some(ps[i]) {
      KeysMembership(projects, RegionalReport.RegionKey, ps[i]);
      var n :| 0 <= n < |projects| && RegionalReport.RegionKey(projects[n]) == ps[i];
      assert GroupKeys(gs)[i] == gs[i].0;
      DecodeJoinKey(ps[i].0, ps[i].1);
    }
  }

  lemma SeparatorFreeInit(projects: seq<Project>)
    requires SeparatorFree(projects) && projects != []
    ensures SeparatorFree(projects[..|projects| - 1])
  {
    var init := projects[..|projects| - 1];
    forall i | 0 <= i < |init| ensures Separator !in init[i].region && Separator !in init[i].mainIsland {
      assert init[i] == projects[i];
    }
  }

  /** On separator-free input the projects under a joined text key are those under its pair. */
  lemma {:induction false} SelectJoined(projects: seq<Project>, k: (string, string))
    requires SeparatorFree(projects) && Separator !in k.0 && Separator !in k.1
    ensures Select(projects, JoinedRegionKey, JoinKey(k.0, k.1)) == Select(projects, RegionalReport.RegionKey, k)
  {
    if projects != [] {
      var last := projects[|projects| - 1];
      SeparatorFreeInit(projects);
      SelectJoined(projects[..|projects| - 1], k);
      JoinKeyInjective(last.region, last.mainIsland, k.0, k.1);
    }
  }

  /**
   * On separator-free input the text route forms the same groups as the pair grouping:
   * as many, in the same order, each holding the same projects.
   */
  lemma AsWrittenGroupsAgree(projects: seq<Project>)
    requires SeparatorFree(projects)
    ensures var ts, ps := GroupBy(projects, JoinedRegionKey), GroupBy(projects, RegionalReport.RegionKey);
      |ts| == |ps| && forall i :: 0 <= i < |ts| ==> ts[i].1 == ps[i].1
  {
    var ts, ps := GroupBy(projects, JoinedRegionKey), GroupBy(projects, RegionalReport.RegionKey);
    var ks := Keys(projects, RegionalReport.RegionKey);
    GroupByIsPartition(projects, JoinedRegionKey);
    GroupByIsPartition(projects, RegionalReport.RegionKey);
    JoinedKeysMirrorPairs(projects);
    assert |ts| == |GroupKeys(ts)| == |GroupKeys(ps)| == |ps|;
    forall i | 0 <= i < |ts| ensures ts[i].1 == ps[i].1 {
      KeysMembership(projects, RegionalReport.RegionKey, ks[i]);
      var n :| 0 <= n < |projects| && RegionalReport.RegionKey(projects[n]) == ks[i];
      SelectJoined(projects, ks[i]);
    }
  }

  /**
   * On separator-free input the text route yields the same rows before sorting: row i
   * carries the decoded pair of the i-th text group and aggregates that group, and this
   * is the i-th pair-grouped row, label and figures alike.
   */
  lemma AsWrittenRowsAgree(projects: seq<Project>)
    requires SeparatorFree(projects)
    ensures var gs, rows := GroupBy(projects, JoinedRegionKey), RegionalReport.GroupRows(projects);
      && |gs| == |rows|
      && forall i :: 0 <= i < |gs| ==>
           && AsWrittenPairs(projects)[i].Some?
           && RegionalReport.Summarize(AsWrittenPairs(projects)[i].value, gs[i].1) == rows[i]
  {
    var gs, rows := GroupBy(projects, JoinedRegionKey), RegionalReport.GroupRows(projects);
    var ks := Keys(projects, RegionalReport.RegionKey);
    AsWrittenAgrees(projects);
    AsWrittenGroupsAgree(projects);
    RegionalReport.GroupRowsSpec(projects);
    GroupByIsPartition(projects, RegionalReport.RegionKey);
    forall i | 0 <= i < |gs|
      ensures AsWrittenPairs(projects)[i].Some?
      ensures RegionalReport.Summarize(AsWrittenPairs(projects)[i].value, gs[i].1) == rows[i]
    {
      assert AsWrittenPairs(projects)[i] == Some(ks[i]);
      assert gs[i].1 == Select(projects, RegionalReport.RegionKey, ks[i]);
    }
  }

  /** Three separator-free pieces joined by the separator split back into those pieces. */
  lemma SplitThree(a: string, b: string, c: string)
    requires Separator !in a && Separator !in b && Separator !in c
    ensures Split(a + [Separator] + b + [Separator] + c, Separator) == [a, b, c]
  {
    var bc := b + [Separator] + c;
    assert a + [Separator] + b + [Separator] + c == a + [Separator] + bc;
    SplitAfterFree(a, Separator, bc);
    SplitAfterFree(b, Separator, c);
    SplitNoSeparator(c, Separator);
  }

  /** Moving the separator from the end of the first field to the start of the second keeps the text key. */
  lemma CollidingKey(p: Project, q: Project, a: string, b: string, c: string)
    requires Separator !in a && Separator !in b && Separator !in c
    requires p.region == a + [Separator] + b && p.mainIsland == c
    requires q.region == a && q.mainIsland == b + [Separator] + c
    ensures RegionalReport.RegionKey(p) != RegionalReport.RegionKey(q)
    ensures JoinedRegionKey(p) == JoinedRegionKey(q)
    ensures Decode(JoinedRegionKey(p)) == Some((a, b))
  {
    assert |p.region| != |q.region|;
    var key := a + [Separator] + b + [Separator] + c;
    assert JoinedRegionKey(p) == key && JoinedRegionKey(q) == key;
    SplitThree(a, b, c);
  }

  /** Two elements with different keys give two keys, in input order. */
  lemma KeysOfPair<T, K>(x: T, y: T, key: T -> K)
    requires key(x) != key(y)
    ensures Keys([x, y], key) == [key(x), key(y)]
  {
    assert [x, y][..1] == [x];
    assert [x][..0] == [];
    assert Keys([x], key) == [key(x)];
  }

  /**
   * Two projects from different (region, mainIsland) pairs whose text keys coincide,
   * such as ("A|B", "C") and ("A", "B|C"): as written they share one row labelled
   * with a pair that neither of them has, ("A", "B"), while grouping by the pair keeps
   * them apart.
   */
  lemma RegionKeyCollision(p: Project, q: Project, a: string, b: string, c: string)
    requires Separator !in a && Separator !in b && Separator !in c
    requires p.region == a + [Separator] + b && p.mainIsland == c
    requires q.region == a && q.mainIsland == b + [Separator] + c
    ensures RegionalReport.RegionKey(p) != RegionalReport.RegionKey(q)
    ensures JoinedRegionKey(p) == JoinedRegionKey(q)
    ensures AsWrittenPairs([p, q]) == [Some((a, b))]
    ensures |RegionalReport.Report([p, q])| == 2
  {
    CollidingKey(p, q, a, b, c);
    var xs := [p, q];
    SingleGroup(xs, JoinedRegionKey, JoinedRegionKey(p));
    KeysOfPair(p, q, RegionalReport.RegionKey);
    RegionalReport.ReportCoversPairs(xs);
  }

  /**
   * The annual report's key as written: two types of work that share a stem before
   * a '|' ("Dike|North", "Dike|South") keep separate groups but both read back as the
   * stem, so one year gets two rows with one label; grouping by the pair labels each
   * row with its own type.
   */
  lemma TypeOfWorkCut(year: string, stem: string, x: string, y: string)
    requires Separator !in year && Separator !in stem && x != y
    ensures JoinKey(year, stem + [Separator] + x) != JoinKey(year, stem + [Separator] + y)
    ensures Decode(JoinKey(year, stem + [Separator] + x)) == Some((year, stem))
    ensures Decode(JoinKey(year, stem + [Separator] + y)) == Some((year, stem))
  {
    var withX, withY := stem + [Separator] + x, stem + [Separator] + y;
    assert withX[|stem| + 1..] == x && withY[|stem| + 1..] == y;
    DecodeTruncatesSecond(year, withX);
    DecodeTruncatesSecond(year, withY);
    SplitAfterFree(stem, Separator, x);
    SplitAfterFree(stem, Separator, y);
  }
}
