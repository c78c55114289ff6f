/**
 Model of the object-store scanner `get_files_by_extension` (src/s3_utils.py).

 The scanner normalises a folder path into a listing prefix, asks the store for
 the pages of a `list_objects_v2` listing under that prefix, and keeps, in
 listing order, every key that ends with one of the requested extensions.

 The store's paginator is not modelled: a listing is given as a function from
 (bucket, prefix) to the sequence of pages the store returns, and a page is
 `None` when it carries no `Contents` entry.
 */
module S3Utils {

  datatype Option<+T> = None | Some(value: T)

  /** An object key, as the store reports it. */
  type Key = string

  /** One page of a listing: `Some(keys)` when the page has `Contents`, `None` otherwise. */
  type Page = Option<seq<Key>>

  // ---------------------------------------------------------------------------
  // String helpers
  // ---------------------------------------------------------------------------

  /** Python's `s.endswith(suffix)`: true for the empty suffix. */
  predicate EndsWith(s: string, suffix: string) {
    |suffix| <= |s| && s[|s| - |suffix|..] == suffix
  }

  /** Every character of `s` is a slash (vacuously true of the empty string). */
  ghost predicate AllSlashes(s: string) {
    forall i :: 0 <= i < |s| ==> s[i] == '/'
  }

  // ---------------------------------------------------------------------------
  // Prefix normalisation
  // ---------------------------------------------------------------------------

  /** The folder path with one `/` appended unless it already ends in `/`. */
  function WithTrailingSlash(path: string): (r: string)
    ensures EndsWith(r, "/")
    ensures r == path || r == path + "/"
    ensures r == path <==> EndsWith(path, "/")
  {
    if EndsWith(path, "/") then path else path + "/"
  }

  /** The path with every leading `/` removed. */
  function StripLeadingSlashes(path: string): string
    decreases |path|
  {
    if |path| > 0 && path[0] == '/' then StripLeadingSlashes(path[1..]) else path
  }

  /** The listing prefix the scanner sends to the store for a folder path. */
  function NormalizedPrefix(folderPath: string): string {
    StripLeadingSlashes(WithTrailingSlash(folderPath))
  }

  /** Stripping leaves a suffix of the path that does not start with `/`,
      and it removes only slashes. */
  lemma {:induction false} StripLeadingSlashesShape(path: string)
    ensures var r := StripLeadingSlashes(path);
      |r| <= |path| && r == path[|path| - |r|..] &&
      (r == [] || r[0] != '/') &&
      AllSlashes(path[..|path| - |r|])
    decreases |path|
  {
    if |path| > 0 && path[0] == '/' {
      StripLeadingSlashesShape(path[1..]);
      var r := StripLeadingSlashes(path[1..]);
      assert path[1..][|path| - 1 - |r|..] == path[|path| - |r|..];
      var stripped := path[..|path| - |r|];
      forall i | 0 <= i < |stripped| ensures stripped[i] == '/' {
        if i > 0 {
          assert stripped[i] == path[1..][..|path| - 1 - |r|][i - 1];
        }
      }
    } else {
      assert path[..0] == [];
    }
  }

  /** Stripping yields the empty string exactly when the path is all slashes.
      Not itself inductive: the induction lives in the two lemmas it combines,
      so automatic induction is switched off to keep that the proof. */
  lemma {:induction false} StripLeadingSlashesEmptyIff(path: string)
    ensures StripLeadingSlashes(path) == [] <==> AllSlashes(path)
  {
    StripLeadingSlashesShape(path);
    if AllSlashes(path) {
      AllSlashesStripToEmpty(path);
    } else {
      assert path[..|path| - 0] == path;
    }
  }

  lemma {:induction false} AllSlashesStripToEmpty(path: string)
    requires AllSlashes(path)
    ensures StripLeadingSlashes(path) == []
    decreases |path|
  {
    if |path| > 0 {
      assert AllSlashes(path[1..]) by {
        forall i | 0 <= i < |path| - 1 ensures path[1..][i] == '/' {
          assert path[1..][i] == path[i + 1];
        }
      }
      AllSlashesStripToEmpty(path[1..]);
    }
  }

  /** Appending text after a path: if the path has something besides leading
      slashes, the text is kept after it; otherwise only the text is stripped. */
  lemma {:induction false} StripLeadingSlashesAppend(path: string, tail: string)
    ensures StripLeadingSlashes(path + tail) ==
      if StripLeadingSlashes(path) == [] then StripLeadingSlashes(tail)
      else StripLeadingSlashes(path) + tail
    decreases |path|
  {
    if |path| == 0 {
      assert path + tail == tail;
    } else if path[0] == '/' {
      assert (path + tail)[1..] == path[1..] + tail;
      StripLeadingSlashesAppend(path[1..], tail);
    } else {
      assert (path + tail)[0] == path[0];
    }
  }

  /** What the normalisation does, stated on the path with its leading
      slashes removed (`core`): nothing left means the whole bucket, otherwise
      `core` ending in exactly the `/` it had or one that is appended. */
  lemma NormalizedPrefixCharacterization(folderPath: string)
    ensures var core := StripLeadingSlashes(folderPath);
      NormalizedPrefix(folderPath) ==
        if core == [] then []
        else if EndsWith(core, "/") then core
        else core + "/"
  {
    var core := StripLeadingSlashes(folderPath);
    StripLeadingSlashesShape(folderPath);
    if EndsWith(folderPath, "/") {
      if core != [] {
        assert core[|core| - 1] == folderPath[|folderPath| - 1];
        assert folderPath[|folderPath| - 1..] == "/";
        assert core[|core| - 1..] == [core[|core| - 1]];
        assert EndsWith(core, "/");
      }
    } else {
      StripLeadingSlashesAppend(folderPath, "/");
      if core != [] {
        assert core[|core| - 1] == folderPath[|folderPath| - 1];
        assert folderPath[|folderPath| - 1..] == [folderPath[|folderPath| - 1]];
        assert core[|core| - 1..] == [core[|core| - 1]];
        assert !EndsWith(core, "/");
      }
    }
  }

  /** The prefix is the whole bucket (empty), or it does not start with `/`
      and it ends with `/`. */
  lemma NormalizedPrefixShape(folderPath: string)
    ensures var p := NormalizedPrefix(folderPath);
      p == [] || (p[0] != '/' && p[|p| - 1] == '/')
  {
    NormalizedPrefixCharacterization(folderPath);
    StripLeadingSlashesShape(folderPath);
    var core := StripLeadingSlashes(folderPath);
    if core != [] && EndsWith(core, "/") {
      assert core[|core| - 1..] == [core[|core| - 1]];
    }
  }

  /** The empty path, `/`, and every all-slash path mean the whole bucket,
      and no other path does. */
  lemma NormalizedPrefixEmptyIff(folderPath: string)
    ensures NormalizedPrefix(folderPath) == [] <==> AllSlashes(folderPath)
  {
    NormalizedPrefixCharacterization(folderPath);
    StripLeadingSlashesEmptyIff(folderPath);
  }

  /** A path without a leading `/` gets exactly one `/` appended when it does
      not end in `/`, and is kept unchanged when it does. Dafny proves this
      by unfolding the definitions. */
  lemma NormalizedPrefixOfRelativePath(folderPath: string)
    requires |folderPath| > 0 && folderPath[0] != '/'
    ensures !EndsWith(folderPath, "/") ==> NormalizedPrefix(folderPath) == folderPath + "/"
    ensures EndsWith(folderPath, "/") ==> NormalizedPrefix(folderPath) == folderPath
  {
  }

  /** Normalising a prefix a second time changes nothing. */
  lemma NormalizedPrefixIdempotent(folderPath: string)
    ensures NormalizedPrefix(NormalizedPrefix(folderPath)) == NormalizedPrefix(folderPath)
  {
    var p := NormalizedPrefix(folderPath);
    NormalizedPrefixShape(folderPath);
    if p != [] {
      assert p[|p| - 1..] == [p[|p| - 1]];
      NormalizedPrefixOfRelativePath(p);
    }
  }

  /** Worked example: `//a` lists under `a/`. Dafny checks it by unfolding the
      definitions on this one input. */
  lemma NormalizedPrefixExample()
    ensures NormalizedPrefix("//a") == "a/"
  {
  }

  /** The normalisation as the source performs it: append a `/` when missing,
      then drop leading slashes one at a time. */
  method NormalizeFolderPath(folderPath: string) returns (prefix: string)
    ensures prefix == NormalizedPrefix(folderPath)
    ensures prefix == [] || (prefix[0] != '/' && prefix[|prefix| - 1] == '/')
  {
    prefix := folderPath;
    if !EndsWith(prefix, "/") {
      prefix := prefix + "/";
    }
    while |prefix| > 0 && prefix[0] == '/'
      invariant StripLeadingSlashes(prefix) == NormalizedPrefix(folderPath)
      decreases |prefix|
    {
      prefix := prefix[1..];
    }
    NormalizedPrefixShape(folderPath);
  }

  // ---------------------------------------------------------------------------
  // Extension filter over a paged listing
  // ---------------------------------------------------------------------------

  /** Python's `any(key.endswith(ext) for ext in exts)`. */
  function MatchesAny(key: Key, exts: seq<string>): (b: bool)
    ensures b <==> exists i :: 0 <= i < |exts| && EndsWith(key, exts[i])
  {
    if exts == [] then false
    else EndsWith(key, exts[0]) || MatchesAny(key, exts[1..])
  }

  /** The keys of one page's contents that match, in order. */
  function FilterKeys(keys: seq<Key>, exts: seq<string>): seq<Key>
    decreases |keys|
  {
    if keys == [] then []
    else
      var last := keys[|keys| - 1];
      FilterKeys(keys[..|keys| - 1], exts) + (if MatchesAny(last, exts) then [last] else [])
  }

  /** What one page contributes: nothing when it has no `Contents`. */
  function PageMatches(page: Page, exts: seq<string>): seq<Key> {
    match page
    case None => []
    case Some(keys) => FilterKeys(keys, exts)
  }

  /** The scanner's result over a listing: the pages' matches, page by page. */
  function Scan(pages: seq<Page>, exts: seq<string>): seq<Key>
    decreases |pages|
  {
    if pages == [] then []
    else Scan(pages[..|pages| - 1], exts) + PageMatches(pages[|pages| - 1], exts)
  }

  /** Every key the listing reports, in order; pages without `Contents` add none. */
  function AllKeys(pages: seq<Page>): seq<Key>
    decreases |pages|
  {
    if pages == [] then []
    else
      AllKeys(pages[..|pages| - 1]) +
      (match pages[|pages| - 1] case None => [] case Some(keys) => keys)
  }

  /** Filtering distributes over concatenation of key sequences. */
  lemma {:induction false} FilterKeysAppend(a: seq<Key>, b: seq<Key>, exts: seq<string>)
    ensures FilterKeys(a + b, exts) == FilterKeys(a, exts) + FilterKeys(b, exts)
    decreases |b|
  {
    if b == [] {
      assert a + b == a;
    } else {
      var b' := b[..|b| - 1];
      assert (a + b)[..|a + b| - 1] == a + b';
      FilterKeysAppend(a, b', exts);
    }
  }

  /** Page boundaries do not matter: scanning two listings one after the other
      is scanning their concatenation. */
  lemma {:induction false} ScanAppend(p: seq<Page>, q: seq<Page>, exts: seq<string>)
    ensures Scan(p + q, exts) == Scan(p, exts) + Scan(q, exts)
    decreases |q|
  {
    if q == [] {
      assert p + q == p;
    } else {
      var q', last := q[..|q| - 1], q[|q| - 1];
      assert (p + q)[..|p + q| - 1] == p + q';
      assert (p + q)[|p + q| - 1] == last;
      assert Scan(p + q, exts) == Scan(p + q', exts) + PageMatches(last, exts);
      ScanAppend(p, q', exts);
      assert Scan(q, exts) == Scan(q', exts) + PageMatches(last, exts);
    }
  }

  /** The paged scan is the extension filter applied to all listed keys. */
  lemma {:induction false} ScanIsFilterOfAllKeys(pages: seq<Page>, exts: seq<string>)
    ensures Scan(pages, exts) == FilterKeys(AllKeys(pages), exts)
    decreases |pages|
  {
    if pages != [] {
      var init := pages[..|pages| - 1];
      ScanIsFilterOfAllKeys(init, exts);
      match pages[|pages| - 1]
      case None =>
        assert AllKeys(pages) == AllKeys(init);
        assert Scan(pages, exts) == Scan(init, exts);
      case Some(keys) =>
        assert AllKeys(pages) == AllKeys(init) + keys;
        FilterKeysAppend(AllKeys(init), keys, exts);
    }
  }

  /** Soundness and completeness of the filter, counting repeats: a key occurs
      in the result exactly as often as in the input when it matches, and
      never otherwise. */
  lemma {:induction false} FilterKeysCount(keys: seq<Key>, exts: seq<string>, k: Key)
    ensures multiset(FilterKeys(keys, exts))[k] ==
      if MatchesAny(k, exts) then multiset(keys)[k] else 0
    decreases |keys|
  {
    if keys != [] {
      var init := keys[..|keys| - 1];
      var last := keys[|keys| - 1];
      assert keys == init + [last];
      FilterKeysCount(init, exts, k);
    }
  }

  /** Every key in the filter's result matches some extension. */
  lemma {:induction false} FilterKeysSound(keys: seq<Key>, exts: seq<string>)
    ensures forall i :: 0 <= i < |FilterKeys(keys, exts)| ==> MatchesAny(FilterKeys(keys, exts)[i], exts)
    decreases |keys|
  {
    if keys != [] {
      FilterKeysSound(keys[..|keys| - 1], exts);
    }
  }

  /** Every key the scanner returns ends with one of the extensions. */
  lemma ScanSound(pages: seq<Page>, exts: seq<string>)
    ensures forall i :: 0 <= i < |Scan(pages, exts)| ==>
      exists j :: 0 <= j < |exts| && EndsWith(Scan(pages, exts)[i], exts[j])
  {
    var r := Scan(pages, exts);
    ScanIsFilterOfAllKeys(pages, exts);
    FilterKeysSound(AllKeys(pages), exts);
    forall i | 0 <= i < |r| ensures exists j :: 0 <= j < |exts| && EndsWith(r[i], exts[j]) {
      assert MatchesAny(r[i], exts);
    }
  }

  /** Each key occurs in the scanner's result as often as the listing reports
      it when it matches, and not at all otherwise. Not itself inductive: it
      combines two inductive lemmas, so automatic induction is switched off. */
  lemma {:induction false} ScanCount(pages: seq<Page>, exts: seq<string>, k: Key)
    ensures multiset(Scan(pages, exts))[k] ==
      if MatchesAny(k, exts) then multiset(AllKeys(pages))[k] else 0
  {
    ScanIsFilterOfAllKeys(pages, exts);
    FilterKeysCount(AllKeys(pages), exts, k);
  }

  /** When no key matches, the filter keeps nothing; when all do, it keeps all. */
  lemma {:induction false} FilterKeysNoneOrAll(keys: seq<Key>, exts: seq<string>)
    ensures (forall i :: 0 <= i < |keys| ==> !MatchesAny(keys[i], exts)) ==> FilterKeys(keys, exts) == []
    ensures (forall i :: 0 <= i < |keys| ==> MatchesAny(keys[i], exts)) ==> FilterKeys(keys, exts) == keys
    decreases |keys|
  {
    if keys != [] {
      var init := keys[..|keys| - 1];
      FilterKeysNoneOrAll(init, exts);
      assert keys == init + [keys[|keys| - 1]];
    }
  }

  /** An empty extension list selects nothing (`any` over nothing is false). */
  lemma NoExtensionsSelectNothing(pages: seq<Page>)
    ensures Scan(pages, []) == []
  {
    ScanIsFilterOfAllKeys(pages, []);
    FilterKeysNoneOrAll(AllKeys(pages), []);
  }

  /** The empty extension matches every key, so the whole listing is returned. */
  lemma EmptyExtensionSelectsAll(pages: seq<Page>, exts: seq<string>)
    requires "" in exts
    ensures Scan(pages, exts) == AllKeys(pages)
  {
    var keys := AllKeys(pages);
    ScanIsFilterOfAllKeys(pages, exts);
    var j :| 0 <= j < |exts| && exts[j] == "";
    forall i | 0 <= i < |keys| ensures MatchesAny(keys[i], exts) {
      assert EndsWith(keys[i], exts[j]);
    }
    FilterKeysNoneOrAll(keys, exts);
  }

  /** The page loop of the source: walk the pages in order, skip those without
      `Contents`, and append each key that ends with one of the extensions. */
  method CollectMatches(pages: seq<Page>, fileExtensions: seq<string>) returns (matchingFiles: seq<Key>)
    ensures matchingFiles == Scan(pages, fileExtensions)
  {
    matchingFiles := [];
    var i := 0;
    while i < |pages|
      invariant 0 <= i <= |pages|
      invariant matchingFiles == Scan(pages[..i], fileExtensions)
    {
      var page := pages[i];
      if page.Some? {
        var contents := page.value;
        var j := 0;
        while j < |contents|
          invariant 0 <= j <= |contents|
          invariant matchingFiles == Scan(pages[..i], fileExtensions) + FilterKeys(contents[..j], fileExtensions)
        {
          var key := contents[j];
          if MatchesAny(key, fileExtensions) {
            matchingFiles := matchingFiles + [key];
          }
          assert contents[..j + 1][..j] == contents[..j];
          j := j + 1;
        }
        assert contents[..j] == contents;
      }
      assert pages[..i + 1][..i] == pages[..i];
      i := i + 1;
    }
    assert pages[..i] == pages;
  }

  /** The scanner: normalise the folder path into a prefix, list the bucket
      under that prefix, and keep the matching keys in listing order.
      `listing(bucket, prefix)` stands for the pages the store's
      `list_objects_v2` paginator yields. */
  method GetFilesByExtension(
    bucketName: string,
    folderPath: string,
    fileExtensions: seq<string>,
    listing: (string, string) -> seq<Page>
  ) returns (matchingFiles: seq<Key>)
    ensures matchingFiles == Scan(listing(bucketName, NormalizedPrefix(folderPath)), fileExtensions)
    ensures forall i :: 0 <= i < |matchingFiles| ==> MatchesAny(matchingFiles[i], fileExtensions)
  {
    var prefix := NormalizeFolderPath(folderPath);
    var pages := listing(bucketName, prefix);
    matchingFiles := CollectMatches(pages, fileExtensions);
    ScanIsFilterOfAllKeys(pages, fileExtensions);
    FilterKeysSound(AllKeys(pages), fileExtensions);
  }
}
