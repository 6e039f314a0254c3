/**
 * Making a name safe for the file system (GetValidFilePathName in OMDBfetch/MainForm.cs):
 * every character the platform forbids in file names or paths is removed. The platform's
 * two lists of forbidden characters are parameters.
 */
module FileNames {

  /** `s` with every character of `forbidden` removed, the others in their order. */
  function Without(s: string, forbidden: set<char>): (r: string)
    ensures |r| <= |s|
    ensures forall i :: 0 <= i < |r| ==> r[i] !in forbidden && r[i] in s
  {
    if s == [] then []
    else (if s[0] in forbidden then [] else [s[0]]) + Without(s[1..], forbidden)
  }

  /** Removal works character by character: it distributes over concatenation. */
  lemma {:induction false} WithoutConcat(a: string, b: string, forbidden: set<char>)
    ensures Without(a + b, forbidden) == Without(a, forbidden) + Without(b, forbidden)
  {
    if a == [] {
      assert a + b == b;
    } else {
      assert (a + b)[0] == a[0];
      assert (a + b)[1..] == a[1..] + b;
      WithoutConcat(a[1..], b, forbidden);
    }
  }

  /** Removing one set and then another is removing both at once. */
  lemma {:induction false} WithoutTwice(s: string, first: set<char>, second: set<char>)
    ensures Without(Without(s, first), second) == Without(s, first + second)
  {
    if s != [] {
      WithoutTwice(s[1..], first, second);
      var head := if s[0] in first then [] else [s[0]];
      WithoutConcat(head, Without(s[1..], first), second);
      if s[0] !in first {
        assert Without(head, second) == if s[0] in second then [] else [s[0]];
      }
    }
  }

  lemma WithoutIdempotent(s: string, forbidden: set<char>)
    ensures Without(Without(s, forbidden), forbidden) == Without(s, forbidden)
  {
    WithoutTwice(s, forbidden, forbidden);
    assert forbidden + forbidden == forbidden;
  }

  /** A name that holds no forbidden character comes back unchanged. */
  lemma {:induction false} WithoutClean(s: string, forbidden: set<char>)
    requires forall i :: 0 <= i < |s| ==> s[i] !in forbidden
    ensures Without(s, forbidden) == s
  {
    if s != [] {
      WithoutClean(s[1..], forbidden);
      assert s == [s[0]] + s[1..];
    }
  }

  /** Every allowed character is kept as often as it occurs. */
  lemma {:induction false} WithoutKeepsAllowed(s: string, forbidden: set<char>, c: char)
    requires c !in forbidden
    ensures multiset(Without(s, forbidden))[c] == multiset(s)[c]
  {
    if s != [] {
      WithoutKeepsAllowed(s[1..], forbidden, c);
      assert s == [s[0]] + s[1..];
    }
  }

  /** The characters that occur in `s`. */
  function CharsOf(s: seq<char>): set<char> {
    set c | c in s
  }

  lemma CharsOfAppend(s: seq<char>, c: char)
    ensures CharsOf(s + [c]) == CharsOf(s) + {c}
  {
    assert forall x :: x in s + [c] <==> x in s || x == c;
  }

  /** One more pass of the removal loop removes one more character of the list. */
  lemma RemoveNext(rawName: string, list: seq<char>, i: nat)
    requires i < |list|
    ensures Without(Without(rawName, CharsOf(list[..i])), {list[i]}) == Without(rawName, CharsOf(list[..i + 1]))
  {
    WithoutTwice(rawName, CharsOf(list[..i]), {list[i]});
    assert list[..i + 1] == list[..i] + [list[i]];
    CharsOfAppend(list[..i], list[i]);
  }

  /**
   * The file-name list followed by the path list, each character removed in turn with
   * String.Replace(c, "").
   */
  method GetValidFilePathName(rawName: string, invalidFileNameChars: seq<char>, invalidPathChars: seq<char>)
    returns (name: string)
    ensures name == Without(rawName, CharsOf(invalidFileNameChars + invalidPathChars))
  {
    var invalidCharList := invalidFileNameChars + invalidPathChars;
    name := rawName;
    WithoutClean(rawName, {});
    assert CharsOf(invalidCharList[..0]) == {};
    for i := 0 to |invalidCharList|
      invariant name == Without(rawName, CharsOf(invalidCharList[..i]))
    {
      RemoveNext(rawName, invalidCharList, i);
      name := Without(name, {invalidCharList[i]});
    }
    assert invalidCharList[..|invalidCharList|] == invalidCharList;
  }
}
