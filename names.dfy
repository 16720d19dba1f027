/**
 * The name list of Delopgave_1/intro_to_python.py: `read_names` takes the
 * first line of a file, strips and lowercases it and splits it at commas;
 * the two sorts are Python's stable `sorted`, by the names themselves and
 * by their length; `count_letters_in_names` tallies the alphabetic
 * characters of all names in a dictionary.
 */
module Names {
  import opened Wrappers
  import opened Strings
  import opened Files

  // ---------------------------------------------------------------------
  // read_names
  // ---------------------------------------------------------------------

  /**
   * `readlines()[0]` of a non-empty text: its characters up to and including
   * the first newline, or the whole text when it has none.
   */
  function FirstLine(text: string): (line: string)
    ensures |line| <= |text| && line == text[..|line|]
    ensures forall k :: 0 <= k < |line| - 1 ==> line[k] != '\n'
    ensures text != [] ==> |line| >= 1
    ensures |line| < |text| ==> line[|line| - 1] == '\n'
    ensures |line| == |text| && line != [] && line[|line| - 1] != '\n' ==> '\n' !in text
  {
    if text == [] then []
    else if text[0] == '\n' then "\n"
    else [text[0]] + FirstLine(text[1..])
  }

  /** The names on a line: the line stripped, lowercased and split at commas. */
  function ParseNames(line: string): (names: seq<string>)
    ensures |names| == multiset(Lower(Strip(line)))[','] + 1
    ensures forall name :: name in names ==> ',' !in name
    ensures Join(names, ',') == Lower(Strip(line))
  {
    SplitCount(Lower(Strip(line)), ',');
    SplitJoinsBack(Lower(Strip(line)), ',');
    Split(Lower(Strip(line)), ',')
  }

  /** No name holds an upper-case letter: they are pieces of a lowercased text. */
  lemma ParsedNamesLowercase(line: string)
    ensures forall name, c :: name in ParseNames(line) && c in name ==> !('A' <= c <= 'Z')
  {
    var names := ParseNames(line);
    var text := Lower(Strip(line));
    forall name, c | name in names && c in name ensures !('A' <= c <= 'Z') {
      JoinHasPartChars(names, ',', name, c);
      var i :| 0 <= i < |text| && text[i] == c;
    }
  }

  /** Why `read_names` raised: the file has no first line (`IndexError`), or the read failed. */
  datatype NamesError = NoFirstLine | ReadFailed(cause: IoError)

  /** `read_names(filepath)`: the names on the file's first line, or the error raised. */
  function ReadNames(fs: FileSystem, path: string): (r: Result<seq<string>, NamesError>)
    ensures path !in fs ==> r == Err(ReadFailed(NotFound))
    ensures r.Ok? <==> path in fs && fs[path].Contents? && fs[path].text != []
    ensures r.Ok? ==> r.value == ParseNames(FirstLine(TranslateNewlines(fs[path].text)))
    ensures path in fs && fs[path] == Contents([]) ==> r == Err(NoFirstLine)
    ensures ReadText(fs, path).Err? ==> r == Err(ReadFailed(ReadText(fs, path).error))
  {
    match ReadText(fs, path)
    case Err(e) => Err(ReadFailed(e))
    case Ok(text) =>
      TranslateEmpty(fs[path].text);
      if text == [] then Err(NoFirstLine) else Ok(ParseNames(FirstLine(text)))
  }

  /**
   * Only the first line is read: the names are those of the text up to its
   * first newline, whatever follows it.
   */
  lemma OnlyFirstLineRead(line: string, rest: string)
    requires '\n' !in line
    ensures FirstLine(line + "\n" + rest) == line + "\n"
    ensures ParseNames(FirstLine(line + "\n" + rest)) == ParseNames(line + "\n")
  {
    FirstLineOf(line, rest);
  }

  lemma {:induction false} FirstLineOf(line: string, rest: string)
    requires '\n' !in line
    ensures FirstLine(line + "\n" + rest) == line + "\n"
  {
    if line != [] {
      assert (line + "\n" + rest)[1..] == line[1..] + "\n" + rest;
      FirstLineOf(line[1..], rest);
    }
  }

  // ---------------------------------------------------------------------
  // sorted(names) and sorted(names, key=len)
  // ---------------------------------------------------------------------

  /** Python's string order: code point by code point, a proper prefix first. */
  predicate LexLe(a: string, b: string) {
    a == [] || (b != [] && (a[0] < b[0] || (a[0] == b[0] && LexLe(a[1..], b[1..]))))
  }

  lemma {:induction false} LexRefl(a: string)
    ensures LexLe(a, a)
  {
    if a != [] {
      LexRefl(a[1..]);
    }
  }

  lemma {:induction false} LexTotal(a: string, b: string)
    ensures LexLe(a, b) || LexLe(b, a)
  {
    if a != [] && b != [] && a[0] == b[0] {
      LexTotal(a[1..], b[1..]);
    }
  }

  lemma {:induction false} LexTrans(a: string, b: string, c: string)
    requires LexLe(a, b) && LexLe(b, c)
    ensures LexLe(a, c)
  {
    if a != [] && b != [] && c != [] && a[0] == b[0] == c[0] {
      LexTrans(a[1..], b[1..], c[1..]);
    }
  }

  lemma {:induction false} LexAntisym(a: string, b: string)
    requires LexLe(a, b) && LexLe(b, a)
    ensures a == b
  {
    if a != [] && b != [] {
      LexAntisym(a[1..], b[1..]);
      assert a == [a[0]] + a[1..] && b == [b[0]] + b[1..];
    }
  }

  /** The two sort keys the script uses: the name itself, and `len`. */
  datatype SortKey = Identity | Length

  /** `key(a) <= key(b)`. */
  predicate Le(key: SortKey, a: string, b: string) {
    match key
    case Identity => LexLe(a, b)
    case Length => |a| <= |b|
  }

  /** `key(a) == key(b)`: the names `sorted` must keep in their input order. */
  predicate Equiv(key: SortKey, a: string, b: string) {
    match key
    case Identity => a == b
    case Length => |a| == |b|
  }

  lemma LeTotal(key: SortKey, a: string, b: string)
    ensures Le(key, a, b) || Le(key, b, a)
  {
    if key == Identity {
      LexTotal(a, b);
    }
  }

  lemma LeTrans(key: SortKey, a: string, b: string, c: string)
    requires Le(key, a, b) && Le(key, b, c)
    ensures Le(key, a, c)
  {
    if key == Identity {
      LexTrans(a, b, c);
    }
  }

  /** Equal keys are exactly the keys ordered both ways. */
  lemma EquivIffBoth(key: SortKey, a: string, b: string)
    ensures Equiv(key, a, b) <==> Le(key, a, b) && Le(key, b, a)
  {
    if key == Identity {
      LexRefl(a);
      if LexLe(a, b) && LexLe(b, a) {
        LexAntisym(a, b);
      }
    }
  }

  /** Every pair of positions is in order. */
  predicate Sorted(key: SortKey, s: seq<string>) {
    forall i, j :: 0 <= i < j < |s| ==> Le(key, s[i], s[j])
  }

  /** The names of `s` with the same key as `y`, in the order of `s`. */
  function Class(key: SortKey, s: seq<string>, y: string): seq<string> {
    if s == [] then []
    else (if Equiv(key, s[0], y) then [s[0]] else []) + Class(key, s[1..], y)
  }

  /** Puts `x` before the first name whose key is not below its own. */
  function Insert(key: SortKey, x: string, s: seq<string>): (r: seq<string>)
    ensures multiset(r) == multiset(s) + multiset{x}
  {
    if s == [] || Le(key, x, s[0]) then [x] + s
    else
      assert s == [s[0]] + s[1..];
      [s[0]] + Insert(key, x, s[1..])
  }

  /** Inserting keeps a sorted sequence sorted. */
  lemma {:induction false} InsertSorted(key: SortKey, x: string, s: seq<string>)
    requires Sorted(key, s)
    ensures Sorted(key, Insert(key, x, s))
  {
    var r := Insert(key, x, s);
    if s == [] {
    } else if Le(key, x, s[0]) {
      forall i, j | 0 <= i < j < |r| ensures Le(key, r[i], r[j]) {
        if i == 0 {
          if j > 1 {
            LeTrans(key, x, s[0], s[j - 1]);
          }
        } else {
          assert r[i] == s[i - 1] && r[j] == s[j - 1];
        }
      }
    } else {
      LeTotal(key, x, s[0]);
      var t := Insert(key, x, s[1..]);
      InsertSorted(key, x, s[1..]);
      forall i, j | 0 <= i < j < |r| ensures Le(key, r[i], r[j]) {
        if i == 0 {
          assert r[j] == t[j - 1];
          assert r[j] in multiset(t);
          if r[j] != x {
            var k :| 1 <= k < |s| && s[k] == r[j] by {
              assert r[j] in multiset(s[1..]);
              assert r[j] in s[1..];
            }
          }
        } else {
          assert r[i] == t[i - 1] && r[j] == t[j - 1];
        }
      }
    }
  }

  /**
   * Stability of one insertion: `x` is placed before every name with its key,
   * so on each key class it only adds `x` in front.
   */
  lemma {:induction false} InsertClass(key: SortKey, x: string, s: seq<string>, y: string)
    ensures Class(key, Insert(key, x, s), y) == (if Equiv(key, x, y) then [x] else []) + Class(key, s, y)
  {
    if s == [] || Le(key, x, s[0]) {
      assert ([x] + s)[1..] == s;
    } else {
      InsertClass(key, x, s[1..], y);
      var r := Insert(key, x, s);
      assert r[0] == s[0] && r[1..] == Insert(key, x, s[1..]);
      if Equiv(key, x, y) && Equiv(key, s[0], y) {
        assert Equiv(key, x, s[0]);
        EquivIffBoth(key, x, s[0]);
      }
    }
  }

  /**
   * Python's `sorted(s, key=...)`: insertion of each name, from the last to
   * the first, into the sorted rest. The result is a permutation of `s`, it
   * is sorted, and names with equal keys keep their order in `s` (stability).
   */
  function SortBy(key: SortKey, s: seq<string>): (r: seq<string>)
    ensures multiset(r) == multiset(s)
    ensures Sorted(key, r)
    ensures forall y :: Class(key, r, y) == Class(key, s, y)
  {
    if s == [] then []
    else
      var t := SortBy(key, s[1..]);
      InsertSorted(key, s[0], t);
      assert s == [s[0]] + s[1..];
      forall y ensures Class(key, Insert(key, s[0], t), y) == Class(key, s, y) {
        InsertClass(key, s[0], t, y);
      }
      Insert(key, s[0], t)
  }

  /** A name belongs to its own class, and a class holds only names of its sequence. */
  lemma {:induction false} ClassMembers(key: SortKey, s: seq<string>, y: string)
    ensures forall z :: z in Class(key, s, y) ==> z in s && Equiv(key, z, y)
    ensures y in s ==> y in Class(key, s, y)
  {
    if s != [] {
      ClassMembers(key, s[1..], y);
      if key == Identity {
      }
    }
  }

  /** The first name of a sorted sequence has the least key. */
  lemma SortedFirstLeast(key: SortKey, r: seq<string>, z: string)
    requires Sorted(key, r) && z in r
    ensures Le(key, r[0], z)
  {
    var j :| 0 <= j < |r| && r[j] == z;
    if j == 0 {
      EquivIffBoth(key, z, z);
    }
  }

  /** Two sorted sequences with the same key classes start with the same name. */
  lemma SortedSameHead(key: SortKey, r1: seq<string>, r2: seq<string>)
    requires Sorted(key, r1) && Sorted(key, r2) && r1 != [] && r2 != []
    requires forall y :: Class(key, r1, y) == Class(key, r2, y)
    ensures r1[0] == r2[0]
  {
    var a, b := r1[0], r2[0];
    ClassMembers(key, r1, a);
    ClassMembers(key, r2, b);
    assert a in r2 by { assert a in Class(key, r2, a); ClassMembers(key, r2, a); }
    assert b in r1 by { assert b in Class(key, r1, b); ClassMembers(key, r1, b); }
    SortedFirstLeast(key, r1, b);
    SortedFirstLeast(key, r2, a);
    EquivIffBoth(key, b, a);
    assert Class(key, r1, a)[0] == a;
    assert Class(key, r2, a)[0] == b;
  }

  /** Removing the same first name from both leaves the same key classes. */
  lemma SameClassesTail(key: SortKey, r1: seq<string>, r2: seq<string>, y: string)
    requires r1 != [] && r2 != [] && r1[0] == r2[0]
    requires Class(key, r1, y) == Class(key, r2, y)
    ensures Class(key, r1[1..], y) == Class(key, r2[1..], y)
  {
    var h := if Equiv(key, r1[0], y) then [r1[0]] else [];
    assert Class(key, r1, y) == h + Class(key, r1[1..], y);
    assert Class(key, r2, y) == h + Class(key, r2[1..], y);
    assert (h + Class(key, r1[1..], y))[|h|..] == Class(key, r1[1..], y);
    assert (h + Class(key, r2[1..], y))[|h|..] == Class(key, r2[1..], y);
  }

  /**
   * Sorted order with every key class kept is unique: two sorted sequences
   * with the same classes are equal.
   */
  lemma {:induction false} SortedUnique(key: SortKey, r1: seq<string>, r2: seq<string>)
    requires Sorted(key, r1) && Sorted(key, r2)
    requires forall y :: Class(key, r1, y) == Class(key, r2, y)
    ensures r1 == r2
  {
    if r1 != [] && r2 != [] {
      SortedSameHead(key, r1, r2);
      forall y ensures Class(key, r1[1..], y) == Class(key, r2[1..], y) {
        SameClassesTail(key, r1, r2, y);
      }
      SortedUnique(key, r1[1..], r2[1..]);
      assert r1 == [r1[0]] + r1[1..] && r2 == [r2[0]] + r2[1..];
    } else if r1 != [] {
      ClassMembers(key, r1, r1[0]);
      assert false;
    } else if r2 != [] {
      ClassMembers(key, r2, r2[0]);
      assert false;
    }
  }

  /** Any sorted sequence keeping every key class of `s` in order is `SortBy(key, s)`. */
  lemma StableSortIsSortBy(key: SortKey, s: seq<string>, r: seq<string>)
    requires Sorted(key, r)
    requires forall y :: Class(key, r, y) == Class(key, s, y)
    ensures r == SortBy(key, s)
  {
    SortedUnique(key, r, SortBy(key, s));
  }

  /** `sort_names_alphabetically(names)`: `sorted(names)`, a permutation in nondecreasing string order. */
  function SortNamesAlphabetically(names: seq<string>): (r: seq<string>)
    ensures multiset(r) == multiset(names)
    ensures forall i, j :: 0 <= i < j < |r| ==> LexLe(r[i], r[j])
  {
    SortBy(Identity, names)
  }

  /**
   * `sort_names_length(names)`: `sorted(names, key=len)`, a permutation with
   * nondecreasing lengths in which names of one length keep their input order.
   */
  function SortNamesLength(names: seq<string>): (r: seq<string>)
    ensures multiset(r) == multiset(names)
    ensures forall i, j :: 0 <= i < j < |r| ==> |r[i]| <= |r[j]|
    ensures forall y :: Class(Length, r, y) == Class(Length, names, y)
  {
    SortBy(Length, names)
  }

  // ---------------------------------------------------------------------
  // count_letters_in_names
  // ---------------------------------------------------------------------

  /** The names written one after another: the characters the loops visit, in order. */
  function Flatten(names: seq<string>): string {
    if names == [] then [] else Flatten(names[..|names| - 1]) + names[|names| - 1]
  }

  /** How often `c` occurs in all the names together. */
  function Occurrences(names: seq<string>, c: char): nat {
    if names == [] then 0 else multiset(names[0])[c] + Occurrences(names[1..], c)
  }

  /** `letter_count[letter] = letter_count.get(letter, 0) + 1` when `letter.isalpha()`. */
  function Bump(m: map<char, nat>, c: char): map<char, nat> {
    if IsAlpha(c) then m[c := (if c in m then m[c] else 0) + 1] else m
  }

  /** The dictionary the loops build after visiting the characters of `s` in order. */
  function CountIn(s: string): map<char, nat> {
    if s == [] then map[] else Bump(CountIn(s[..|s| - 1]), s[|s| - 1])
  }

  /** The dictionary `count_letters_in_names` returns. */
  function Tally(names: seq<string>): map<char, nat> {
    CountIn(Flatten(names))
  }

  /**
   * What the dictionary holds: a key for each letter that occurs in `s`, and
   * for it the number of its occurrences.
   */
  lemma {:induction false} CountInSpec(s: string)
    ensures forall c :: c in CountIn(s) <==> IsAlpha(c) && c in s
    ensures forall c :: c in CountIn(s) ==> CountIn(s)[c] == multiset(s)[c]
  {
    if s != [] {
      var p, c := s[..|s| - 1], s[|s| - 1];
      assert s == p + [c];
      CountInSpec(p);
      assert multiset(s) == multiset(p) + multiset{c};
      forall d ensures d in s <==> d in p || d == c {
      }
    }
  }

  /** Visiting one more character bumps its count. */
  lemma CountInSnoc(s: string, c: char)
    ensures CountIn(s + [c]) == Bump(CountIn(s), c)
  {
    assert (s + [c])[..|s|] == s;
  }

  /** The characters visited once `j` letters of the next name are done. */
  lemma VisitStep(visited: string, name: string, j: int)
    requires 0 <= j < |name|
    ensures CountIn(visited + name[..j + 1]) == Bump(CountIn(visited + name[..j]), name[j])
  {
    assert visited + name[..j + 1] == (visited + name[..j]) + [name[j]];
    CountInSnoc(visited + name[..j], name[j]);
  }

  lemma FlattenPrefix(names: seq<string>, i: int)
    requires 0 <= i < |names|
    ensures Flatten(names[..i + 1]) == Flatten(names[..i]) + names[i]
  {
    assert names[..i + 1][..i] == names[..i];
  }

  /**
   * `count_letters_in_names(names)`: the nested loops add one to the tally of
   * each alphabetic character; the result is the tally of all the names.
   */
  method CountLettersInNames(names: seq<string>) returns (letterCount: map<char, nat>)
    ensures letterCount == Tally(names)
  {
    letterCount := map[];
    for i := 0 to |names|
      invariant letterCount == CountIn(Flatten(names[..i]))
    {
      var name := names[i];
      ghost var visited := Flatten(names[..i]);
      assert visited + name[..0] == visited;
      for j := 0 to |name|
        invariant letterCount == CountIn(visited + name[..j])
      {
        var letter := name[j];
        VisitStep(visited, name, j);
        if IsAlpha(letter) {
          letterCount := letterCount[letter := (if letter in letterCount then letterCount[letter] else 0) + 1];
        }
      }
      FlattenPrefix(names, i);
      assert name[..|name|] == name;
    }
    assert names[..|names|] == names;
  }

  lemma {:induction false} FlattenAppend(a: seq<string>, b: seq<string>)
    ensures Flatten(a + b) == Flatten(a) + Flatten(b)
    decreases |b|
  {
    if b == [] {
      assert a + b == a;
    } else {
      var b' := b[..|b| - 1];
      assert (a + b)[..|a + b| - 1] == a + b';
      FlattenAppend(a, b');
    }
  }

  lemma {:induction false} FlattenOccurrences(names: seq<string>, c: char)
    ensures multiset(Flatten(names))[c] == Occurrences(names, c)
  {
    if names != [] {
      FlattenOccurrences(names[1..], c);
      FlattenAppend([names[0]], names[1..]);
      assert [names[0]] + names[1..] == names;
      assert Flatten([names[0]]) == names[0] by {
        assert [names[0]][..0] == [];
      }
    }
  }

  /**
   * The keys of the tally are the letters that occur in some name, and each
   * letter's count is its number of occurrences over all the names.
   */
  lemma TallyCounts(names: seq<string>)
    ensures forall c :: c in Tally(names) <==> IsAlpha(c) && Occurrences(names, c) > 0
    ensures forall c :: c in Tally(names) ==> Tally(names)[c] == Occurrences(names, c) >= 1
  {
    CountInSpec(Flatten(names));
    forall c ensures multiset(Flatten(names))[c] == Occurrences(names, c) {
      FlattenOccurrences(names, c);
    }
    forall c ensures c in Flatten(names) <==> multiset(Flatten(names))[c] > 0 {
    }
  }

  /** `sum(counts.values())`. */
  ghost function SumValues(m: map<char, nat>): nat
    decreases |m|
  {
    if m == map[] then 0
    else
      var k :| k in m;
      m[k] + SumValues(m - {k})
  }

  lemma {:induction false} SumValuesRemove(m: map<char, nat>, k: char)
    requires k in m
    ensures SumValues(m) == m[k] + SumValues(m - {k})
    decreases |m|
  {
    var j :| j in m && SumValues(m) == m[j] + SumValues(m - {j});
    if j != k {
      assert |m - {j}| == |m| - 1;
      assert |m - {k}| == |m| - 1;
      SumValuesRemove(m - {j}, k);
      SumValuesRemove(m - {k}, j);
      assert m - {j} - {k} == m - {k} - {j};
    }
  }

  /** The number of alphabetic characters of `s`. */
  function AlphaCount(s: string): nat {
    if s == [] then 0 else AlphaCount(s[..|s| - 1]) + (if IsAlpha(s[|s| - 1]) then 1 else 0)
  }

  lemma {:induction false} SumCountIn(s: string)
    ensures SumValues(CountIn(s)) == AlphaCount(s)
  {
    if s != [] {
      var p, c := s[..|s| - 1], s[|s| - 1];
      assert s == p + [c];
      SumCountIn(p);
      var m := CountIn(p);
      if IsAlpha(c) {
        var m' := CountIn(s);
        SumValuesRemove(m', c);
        assert m' - {c} == m - {c};
        if c in m {
          SumValuesRemove(m, c);
        } else {
          assert m - {c} == m;
        }
      }
    }
  }

  /** The counts add up to the number of alphabetic characters in all the names. */
  lemma TallySum(names: seq<string>)
    ensures SumValues(Tally(names)) == AlphaCount(Flatten(names))
  {
    SumCountIn(Flatten(names));
  }

  /** The characters of the names are those before name `k`, then its own, then those after it. */
  lemma {:induction false} FlattenSplitAt(b: seq<string>, k: int)
    requires 0 <= k < |b|
    ensures Flatten(b) == Flatten(b[..k]) + b[k] + Flatten(b[k + 1..])
    decreases |b|
  {
    var init, last := b[..|b| - 1], b[|b| - 1];
    if k == |b| - 1 {
      assert init == b[..k];
      assert b[k + 1..] == [];
    } else {
      FlattenSplitAt(init, k);
      assert init[..k] == b[..k];
      var after := b[k + 1..];
      assert after[..|after| - 1] == init[k + 1..];
      assert Flatten(after) == Flatten(init[k + 1..]) + last;
    }
  }

  /** Taking one name out of the list takes its characters out of the visited ones. */
  lemma FlattenRemove(b: seq<string>, k: int)
    requires 0 <= k < |b|
    ensures multiset(Flatten(b)) == multiset(Flatten(b[..k] + b[k + 1..])) + multiset(b[k])
  {
    var f1, f2 := Flatten(b[..k]), Flatten(b[k + 1..]);
    FlattenSplitAt(b, k);
    FlattenAppend(b[..k], b[k + 1..]);
    assert multiset(f1 + b[k] + f2) == multiset(f1) + multiset(b[k]) + multiset(f2);
  }

  /** Permuting the names permutes the characters the loops visit. */
  lemma {:induction false} FlattenPermutation(a: seq<string>, b: seq<string>)
    requires multiset(a) == multiset(b)
    ensures multiset(Flatten(a)) == multiset(Flatten(b))
    decreases |a|
  {
    if a != [] {
      var a', x := a[..|a| - 1], a[|a| - 1];
      assert x in multiset(b) by {
        assert x in a;
      }
      var k :| 0 <= k < |b| && b[k] == x;
      var rest := b[..k] + b[k + 1..];
      assert multiset(a') == multiset(rest) by {
        assert a == a' + [x];
        assert b == b[..k] + [x] + b[k + 1..];
        assert multiset(b) == multiset(b[..k]) + multiset{x} + multiset(b[k + 1..]);
        assert multiset(rest) == multiset(b[..k]) + multiset(b[k + 1..]);
        assert multiset(a) == multiset(a') + multiset{x};
        assert multiset(a') == multiset(a) - multiset{x};
        assert multiset(rest) == multiset(b) - multiset{x};
      }
      FlattenPermutation(a', rest);
      FlattenRemove(b, k);
      assert Flatten(a) == Flatten(a') + x;
    } else {
      assert b == [];
    }
  }

  /** The tally does not depend on the order of the names. */
  lemma TallyPermutation(a: seq<string>, b: seq<string>)
    requires multiset(a) == multiset(b)
    ensures Tally(a) == Tally(b)
  {
    FlattenPermutation(a, b);
    var s, t := Flatten(a), Flatten(b);
    CountInSpec(s);
    CountInSpec(t);
    forall c ensures c in s <==> c in t {
      assert c in s <==> c in multiset(s);
      assert c in t <==> c in multiset(t);
    }
    assert CountIn(s).Keys == CountIn(t).Keys;
  }

  /** What the script's main block prints: counting the sorted names is counting the names. */
  lemma SortedTally(names: seq<string>)
    ensures Tally(SortNamesAlphabetically(names)) == Tally(names)
  {
    TallyPermutation(SortNamesAlphabetically(names), names);
  }
}
