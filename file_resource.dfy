/**
 The string predicates of `FileResourceDesc`
 (Source/Tools/Editor/Project/ProjectRequest.h): whether the resource
 resolved to a file, and whether its name carries a given extension,
 compared without regard to case.
 */
module FileResource {

  /** Lower-case form of an ASCII letter; every other character is kept. */
  function ToLower(c: char): (l: char)
    ensures 'A' <= c <= 'Z' ==> l as int == c as int + 32
    ensures !('A' <= c <= 'Z') ==> l == c
    ensures !('A' <= l <= 'Z')
  {
    if 'A' <= c <= 'Z' then (c as int + 32) as char else c
  }

  /** `s` with every character lower-cased. */
  function Lower(s: string): (r: string)
    ensures |r| == |s|
    ensures forall i | 0 <= i < |s| :: r[i] == ToLower(s[i])
  {
    seq(|s|, i requires 0 <= i < |s| => ToLower(s[i]))
  }

  /** Two characters that are equal when case is ignored. */
  predicate SameIgnoringCase(a: char, b: char)
  {
    ToLower(a) == ToLower(b)
  }

  /**
   `s.ends_with(suffix, false)`: the last characters of `s` match `suffix`
   one by one when case is ignored. The library's own body of `ends_with`
   is not part of this model; comparing from the end, one character at a
   time, is the model's choice, and the lemma below shows it agrees with
   comparing lower-cased tails.
   */
  function EndsWithIgnoringCase(s: string, suffix: string): (r: bool)
    ensures r ==> |suffix| <= |s|
    decreases |suffix|
  {
    if suffix == [] then true
    else if s == [] then false
    else SameIgnoringCase(s[|s| - 1], suffix[|suffix| - 1])
         && EndsWithIgnoringCase(s[..|s| - 1], suffix[..|suffix| - 1])
  }

  /**
   Reference definition of the case-insensitive suffix test: `suffix` is
   no longer than `s`, and lower-casing both makes `suffix` the tail of `s`.
   */
  lemma {:induction false} EndsWithIgnoringCaseIsLowerSuffix(s: string, suffix: string)
    ensures EndsWithIgnoringCase(s, suffix) <==>
              |suffix| <= |s| && Lower(s)[|s| - |suffix|..] == Lower(suffix)
    decreases |suffix|
  {
    if suffix != [] && s != [] {
      var s', x' := s[..|s| - 1], suffix[..|suffix| - 1];
      EndsWithIgnoringCaseIsLowerSuffix(s', x');
      if |suffix| <= |s| {
        var a, b := Lower(s)[|s| - |suffix|..], Lower(suffix);
        var a', b' := Lower(s')[|s'| - |x'|..], Lower(x');
        assert a == a' + [ToLower(s[|s| - 1])];
        assert b == b' + [ToLower(suffix[|suffix| - 1])];
        if a == b {
          assert a' == a[..|a| - 1] && b' == b[..|b| - 1];
        }
      }
    }
  }

  /** The test ignores case on both sides: only the lower-cased strings matter. */
  lemma CaseOfEitherSideIsIrrelevant(s: string, t: string, suffix: string, other: string)
    requires Lower(s) == Lower(t) && Lower(suffix) == Lower(other)
    ensures EndsWithIgnoringCase(s, suffix) <==> EndsWithIgnoringCase(t, other)
  {
    EndsWithIgnoringCaseIsLowerSuffix(s, suffix);
    EndsWithIgnoringCaseIsLowerSuffix(t, other);
  }

  /** A plain (case-sensitive) suffix also passes the case-insensitive test. */
  lemma {:induction false} ExactSuffixMatches(prefix: string, suffix: string)
    ensures EndsWithIgnoringCase(prefix + suffix, suffix)
  {
    var s := prefix + suffix;
    EndsWithIgnoringCaseIsLowerSuffix(s, suffix);
    assert s[|s| - |suffix|..] == suffix;
    assert Lower(s)[|s| - |suffix|..] == Lower(suffix);
  }

  /** The empty extension matches every name; no non-empty one matches an empty name. */
  lemma EmptyCases(s: string, suffix: string)
    ensures EndsWithIgnoringCase(s, [])
    ensures suffix != [] ==> !EndsWithIgnoringCase([], suffix)
  {
  }

  /** `"foo.XML"` carries the extension `".xml"`, and `"foo.xml"` carries `".XML"`. */
  lemma MixedCaseExample()
    ensures EndsWithIgnoringCase("foo.XML", ".xml")
    ensures EndsWithIgnoringCase("foo.xml", ".XML")
    ensures !EndsWithIgnoringCase("foo.xml", ".json")
  {
    EndsWithIgnoringCaseIsLowerSuffix("foo.XML", ".xml");
    EndsWithIgnoringCaseIsLowerSuffix("foo.xml", ".XML");
    EndsWithIgnoringCaseIsLowerSuffix("foo.xml", ".json");
    var upperName, lowerName := Lower("foo.XML"), Lower("foo.xml");
    var lowerExt, upperExt, json := Lower(".xml"), Lower(".XML"), Lower(".json");
    assert upperName[3..] == [ToLower('.'), ToLower('X'), ToLower('M'), ToLower('L')] == ".xml";
    assert lowerName[3..] == [ToLower('.'), ToLower('x'), ToLower('m'), ToLower('l')] == ".xml";
    assert lowerExt == [ToLower('.'), ToLower('x'), ToLower('m'), ToLower('l')] == ".xml";
    assert upperExt == [ToLower('.'), ToLower('X'), ToLower('M'), ToLower('L')] == ".xml";
    assert lowerName[2..][0] == ToLower('o') != ToLower('.') == json[0];
  }

  /**
   A file resource: its logical name and the file system path it resolved
   to, empty when it did not resolve.
   */
  datatype FileResourceDesc = FileResourceDesc(resourceName: string, fileName: string)
  {
    /** The descriptor resolved to a file. */
    predicate IsValidFile()
    {
      |fileName| != 0
    }

    /** The resource name ends with `extension`, ignoring case. */
    predicate HasExtension(extension: string)
    {
      EndsWithIgnoringCase(resourceName, extension)
    }

    /**
     The resource name ends with one of `extensions`, ignoring case: the
     two list overloads, whose bodies are not shown; "any element matches"
     is read from the comment that precedes them.
     */
    function HasAnyExtension(extensions: seq<string>): (r: bool)
      ensures r <==> exists i | 0 <= i < |extensions| :: HasExtension(extensions[i])
    {
      if extensions == [] then false
      else HasExtension(extensions[0]) || HasAnyExtension(extensions[1..])
    }
  }

  /** `FileResourceDesc() = default`: no resource name and no file. */
  function DefaultDesc(): (d: FileResourceDesc)
    ensures !d.IsValidFile()
    ensures forall ext | ext != [] :: !d.HasExtension(ext)
  {
    FileResourceDesc("", "")
  }

  /** Adding extensions to the list never turns a match into a mismatch. */
  lemma {:induction false} AnyExtensionIsMonotone(d: FileResourceDesc, exts: seq<string>, more: seq<string>)
    ensures d.HasAnyExtension(exts) ==> d.HasAnyExtension(exts + more)
    ensures d.HasAnyExtension(more) ==> d.HasAnyExtension(exts + more)
  {
    if d.HasAnyExtension(exts) {
      var i :| 0 <= i < |exts| && d.HasExtension(exts[i]);
      assert (exts + more)[i] == exts[i];
    }
    if d.HasAnyExtension(more) {
      var i :| 0 <= i < |more| && d.HasExtension(more[i]);
      assert (exts + more)[|exts| + i] == more[i];
    }
  }
}
