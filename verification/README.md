# moviescan object-store scanner, modelled in Dafny

This project models `get_files_by_extension` from `src/s3_utils.py` of moviescan. The
function scans an object-store bucket for keys that end with any of a list of file
extensions. It works in two steps:

1. **Prefix normalisation.** The folder path gets a `/` appended unless it already ends
   in one. Then every leading `/` is removed. An empty or all-slash path becomes the
   empty prefix, which means the whole bucket. `//a` becomes `a/`.
2. **Paged extension filter.** The function walks the pages of a `list_objects_v2`
   listing under that prefix. It skips pages that have no `Contents`. It appends every
   key that ends with at least one extension (Python's `str.endswith`, so the empty
   extension matches every key), in listing order and with repeats kept.

Everything lives in one module, `S3Utils` (`s3_utils.dfy`):

- `NormalizeFolderPath` is the reassign-and-strip loop. It is proved equal to the pure
  function `NormalizedPrefix`.
- `CollectMatches` is the nested page/key loop. It is proved equal to the pure
  function `Scan`.
- `GetFilesByExtension` joins the two. The store's paginator is a parameter
  `listing(bucket, prefix)`, which returns the sequence of pages. A page is `None` when
  it has no `Contents` and `Some(keys)` otherwise.
- The lemmas state the properties of `NormalizedPrefix` and `Scan`.

## Model

| member | source | states |
|---|---|---|
| S3Utils.WithTrailingSlash | src/s3_utils.py:18-19 | the path afterwards ends with `/`; it is the path unchanged exactly when the path already ends with `/`, and the path plus one `/` otherwise |
| S3Utils.StripLeadingSlashesShape | src/s3_utils.py:21-22 | stripping leaves a suffix of the path that does not start with `/`, and everything removed is a slash |
| S3Utils.StripLeadingSlashesEmptyIff | src/s3_utils.py:21-22 | stripping leaves nothing exactly when the path consists only of slashes |
| S3Utils.AllSlashesStripToEmpty | src/s3_utils.py:21-22 | helper for `StripLeadingSlashesEmptyIff`: its "all slashes implies empty" direction, proved by induction on the path |
| S3Utils.StripLeadingSlashesAppend | src/s3_utils.py:18-22 | stripping `path + tail` keeps `tail` after the stripped path, unless the path was all slashes, in which case only `tail` is stripped |
| S3Utils.NormalizedPrefixCharacterization | src/s3_utils.py:18-22 | with `core` the path minus its leading slashes: the prefix is empty if `core` is, `core` if it ends with `/`, and `core + "/"` otherwise |
| S3Utils.NormalizedPrefixShape | src/s3_utils.py:18-22 | the prefix is empty, or it does not start with `/` and does end with `/` |
| S3Utils.NormalizedPrefixEmptyIff | src/s3_utils.py:18-22 | the prefix is empty (whole bucket) if and only if the folder path is empty or made only of slashes |
| S3Utils.NormalizedPrefixOfRelativePath | src/s3_utils.py:18-19 | a non-empty path without a leading `/` gets exactly one `/` appended if it lacks a trailing one, and is otherwise unchanged |
| S3Utils.NormalizedPrefixIdempotent | src/s3_utils.py:18-22 | normalising an already normalised prefix returns it unchanged |
| S3Utils.NormalizedPrefixExample | src/s3_utils.py:18-22 | `//a` normalises to `a/` |
| S3Utils.NormalizeFolderPath | src/s3_utils.py:18-22 | the append-then-strip loop returns `NormalizedPrefix(folderPath)`, which is empty or has no leading `/` and a trailing `/` |
| S3Utils.MatchesAny | src/s3_utils.py:34 | `any(key.endswith(ext) for ext in exts)` holds exactly when some extension in the list is a suffix of the key |
| S3Utils.FilterKeysAppend | src/s3_utils.py:32-35 | filtering a concatenation of key lists is the concatenation of the filtered lists |
| S3Utils.ScanAppend | src/s3_utils.py:30-35 | scanning two runs of pages back to back gives the concatenation of their results |
| S3Utils.ScanIsFilterOfAllKeys | src/s3_utils.py:30-35 | the paged scan equals the extension filter applied to all listed keys in order; pages without `Contents` contribute nothing |
| S3Utils.FilterKeysCount | src/s3_utils.py:32-35 | each key occurs in the filtered result exactly as often as in the input if it matches, and not at all otherwise |
| S3Utils.FilterKeysSound | src/s3_utils.py:34-35 | every key the filter keeps matches some extension |
| S3Utils.ScanSound | src/s3_utils.py:30-35 | every returned key ends with at least one of the given extensions |
| S3Utils.ScanCount | src/s3_utils.py:30-35 | each key occurs in the result exactly as often as the listing reports it if it matches, and never otherwise (duplicates kept) |
| S3Utils.FilterKeysNoneOrAll | src/s3_utils.py:34-35 | if no key matches the result is empty; if every key matches the result is the input unchanged |
| S3Utils.NoExtensionsSelectNothing | src/s3_utils.py:34 | an empty extension list returns no keys |
| S3Utils.EmptyExtensionSelectsAll | src/s3_utils.py:34 | if the empty string is one of the extensions, every listed key is returned, in listing order |
| S3Utils.CollectMatches | src/s3_utils.py:30-35 | the nested loop over pages and their `Contents` returns exactly `Scan(pages, exts)` |
| S3Utils.GetFilesByExtension | src/s3_utils.py:3-37 | the result is the scan of the listing under the normalised prefix, and every returned key matches some extension |

## Left out

- The `boto3` client and the `list_objects_v2` paginator (src/s3_utils.py:15, 24-30) are external calls. They are replaced by the `listing` parameter, so the store's own prefix matching, paging limits and errors are not modelled.
- Listed objects are represented by their `Key` alone. The other fields of a `Contents` entry are never read by the function.
- Exceptions raised by the store propagate unchanged in the source. The model has no failing listing.
- `ebs_utils.py` (volume creation, attachment, formatting, mounting and teardown) is not part of this model. It is EC2 API calls, privileged shell commands and filesystem polling.
- `main.py` (configuration loading, the per-bucket loop, downloads and shutdown) is not part of this model. It is orchestration around external calls, and it calls `S3_Wrapper` and `download_file`, which `src/s3_utils.py` does not define.
