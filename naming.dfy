/**
 * The output file name (clean_data.py:86-87): `file_name, extension = path.split(".")`
 * followed by `file_name + '_cleaned.csv'`.
 */
module Naming {
  import opened Wrappers
  import opened Cells

  const Suffix: string := "_cleaned.csv"

  /** Why the two-name unpacking of the split path raises ValueError. */
  datatype UnpackError = NotEnoughValues | TooManyValues

  /** `s.split(sep)`: the pieces between every occurrence of `sep`, empty pieces included. */
  function Split(s: string, sep: char): (parts: seq<string>)
    ensures |parts| == Count(s, sep) + 1
    ensures forall k :: 0 <= k < |parts| ==> sep !in parts[k]
  {
    if s == [] then [[]]
    else
      var rest := Split(s[1..], sep);
      if s[0] == sep then [[]] + rest
      else [[s[0]] + rest[0]] + rest[1..]
  }

  /** Joining pieces back with the separator. */
  function Join(parts: seq<string>, sep: char): string
    requires |parts| > 0
  {
    if |parts| == 1 then parts[0] else parts[0] + [sep] + Join(parts[1..], sep)
  }

  /** Splitting loses nothing: joining the pieces gives back the original string. */
  lemma {:induction false} JoinSplit(s: string, sep: char)
    ensures Join(Split(s, sep), sep) == s
  {
    if s != [] {
      var rest := Split(s[1..], sep);
      JoinSplit(s[1..], sep);
      if s[0] == sep {
        assert Split(s, sep)[1..] == rest;
      } else {
        var parts := Split(s, sep);
        assert parts[1..] == rest[1..];
        if |rest| > 1 {
          assert rest[0] + [sep] + Join(rest[1..], sep) == s[1..];
        }
      }
    }
  }

  /** A string without the separator splits into itself alone. */
  lemma {:induction false} SplitNoSep(s: string, sep: char)
    requires sep !in s
    ensures Split(s, sep) == [s]
  {
    if s != [] {
      SplitNoSep(s[1..], sep);
      assert [s[0]] + s[1..] == s;
    }
  }

  /** A separator after a separator-free prefix splits off exactly that prefix. */
  lemma {:induction false} SplitAfterPrefix(a: string, b: string, sep: char)
    requires sep !in a
    ensures Split(a + [sep] + b, sep) == [a] + Split(b, sep)
  {
    if a == [] {
      assert a + [sep] + b == [sep] + b;
      assert ([sep] + b)[1..] == b;
    } else {
      assert (a + [sep] + b)[1..] == a[1..] + [sep] + b;
      SplitAfterPrefix(a[1..], b, sep);
      assert [a[0]] + a[1..] == a;
    }
  }

  /**
   * The output path: the text before the only dot with "_cleaned.csv" appended. The
   * unpacking raises when the path has no dot or more than one.
   */
  function OutputName(path: string): (r: Result<string, UnpackError>)
    ensures r.Success? <==> Count(path, '.') == 1
    ensures Count(path, '.') == 0 ==> r == Failure(NotEnoughValues)
    ensures Count(path, '.') > 1 ==> r == Failure(TooManyValues)
    ensures r.Success? ==> |r.value| >= |Suffix| && r.value[|r.value| - |Suffix|..] == Suffix
    ensures r.Success? ==> '.' !in r.value[..|r.value| - |Suffix|]
  {
    var parts := Split(path, '.');
    if |parts| < 2 then Failure(NotEnoughValues)
    else if |parts| > 2 then Failure(TooManyValues)
    else
      var name := parts[0] + Suffix;
      assert name[..|name| - |Suffix|] == parts[0];
      Success(name)
  }

  /** Whatever the extension, a path `stem.ext` with no other dot yields `stem_cleaned.csv`. */
  lemma OutputNameOfStem(stem: string, ext: string)
    requires '.' !in stem && '.' !in ext
    ensures OutputName(stem + "." + ext) == Success(stem + Suffix)
  {
    SplitAfterPrefix(stem, ext, '.');
    SplitNoSep(ext, '.');
  }

  /** Conversely, every successful output name comes from the text before the dot. */
  lemma OutputNameStem(path: string)
    requires OutputName(path).Success?
    ensures exists i ::
      0 <= i < |path| && path[i] == '.' && OutputName(path) == Success(path[..i] + Suffix)
  {
    var parts := Split(path, '.');
    JoinSplit(path, '.');
    assert path == parts[0] + ['.'] + parts[1];
    var i := |parts[0]|;
    assert path[i] == '.' && path[..i] == parts[0];
  }

  /** Any path with two dots, wherever they stand, is refused by the unpacking. */
  lemma TwoDotsFail(a: string, b: string, c: string)
    ensures OutputName(a + "." + b + "." + c) == Failure(TooManyValues)
  {
    var path := a + "." + b + "." + c;
    CountIsMultiplicity(path, '.');
    assert multiset(path) == multiset(a) + multiset(".") + multiset(b) + multiset(".") + multiset(c);
  }

  /** A version tag in the name makes the run fail instead of keeping the text before the first dot. */
  lemma VersionedPathFails()
    ensures OutputName("data.v2.csv") == Failure(TooManyValues)
  {
    TwoDotsFail("data", "v2", "csv");
    assert "data" + "." + "v2" + "." + "csv" == "data.v2.csv";
  }

  /** So does a path written relative to the current directory. */
  lemma RelativePathFails()
    ensures OutputName("./jfk_weather.csv") == Failure(TooManyValues)
  {
    TwoDotsFail("", "/jfk_weather", "csv");
    assert "" + "." + "/jfk_weather" + "." + "csv" == "./jfk_weather.csv";
  }
}
