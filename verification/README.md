# wp-regenerate-thumbnails-cli in Dafny

`wp-regenerate-thumbnails-cli.php` is a command-line script. It loads a
WordPress installation, walks every image attachment in ID order, asks
WordPress to regenerate the attachment's metadata (its thumbnail sizes), and
writes that metadata back. It collects one error message for every attachment
it cannot handle. The model covers three parts of it:

- **`Paths`**: `Regenerator::makePath`, the path joiner used to find the
  WordPress files. It includes PHP's `ltrim`/`rtrim`/`trim` with a
  one-character list, PHP's `empty()` on strings, and `implode` (with
  `explode` as its inverse).
- **`Regenerator`**: the batch loop of `Regenerator::run`, modelled as a
  fold over the attachments. The model keeps:
  - the three checks and their precedence;
  - the exact error strings;
  - the generator call made for every attachment;
  - the update made only for clean attachments;
  - the progress counter.
  `Decimal` models the decimal form of the attachment ID inside the
  messages, and how it is read back.
- **`Cli`**: the decisions of `main()`. The help branch is checked first,
  then the path requirement, then the directory check. `-p` wins over `--path`, and the
  root is normalised to end in exactly one separator.

Each WordPress call the loop makes is reduced to what the loop observes of
it. An attachment is an `Image` with three parts:
- its ID;
- a `Location`: `get_attached_file` returned `false`, or it gave a path that
  `file_exists` found or did not find;
- a `Generated` value: what `wp_generate_attachment_metadata` returned. That
  is something `empty()` accepts, a `WP_Error` with its message, or metadata.

A run produces a `Trace` with five parts:
- the returned `$errors`;
- the generator calls;
- the update calls;
- the counts passed to `printProgress`;
- the final `$count`.

`realpath` followed by `is_dir` is a function parameter from the given path
to the directory it names, if any. `getopt` is replaced by the map of option
keys it returns. `DIRECTORY_SEPARATOR` is `/`.

## Model

| member | source | states |
|---|---|---|
| Paths.TrimLeft | wp-regenerate-thumbnails-cli.php:46 | `ltrim` with one character: the result is no longer than the input and does not start with that character |
| Paths.TrimLeftShape | wp-regenerate-thumbnails-cli.php:46 | everything `ltrim` removed is a run of the trimmed character in front of the result |
| Paths.TrimLeftUnique | wp-regenerate-thumbnails-cli.php:46 | `ltrim` removes exactly the longest leading run: any split into a run of the character and a rest not starting with it is the one it returns |
| Paths.TrimRight | wp-regenerate-thumbnails-cli.php:44 | `rtrim` with one character: the result is no longer than the input and does not end with that character |
| Paths.TrimRightShape | wp-regenerate-thumbnails-cli.php:44 | everything `rtrim` removed is a run of the trimmed character behind the result |
| Paths.TrimRightUnique | wp-regenerate-thumbnails-cli.php:44 | `rtrim` removes exactly the longest trailing run |
| Paths.Trim | wp-regenerate-thumbnails-cli.php:46 | `trim`: the result neither starts nor ends with the character |
| Paths.TrimShape | wp-regenerate-thumbnails-cli.php:46 | the input is a run of the character, then the `trim` result, then another run of the character |
| Paths.TrimUnique | wp-regenerate-thumbnails-cli.php:46 | `trim` returns exactly the middle between the leading and trailing runs |
| Paths.TrimKeepsChars | wp-regenerate-thumbnails-cli.php:44-46 | trimming only removes characters, so every character of the result occurs in the input |
| Paths.TrimClean | wp-regenerate-thumbnails-cli.php:44-46 | a string with no separator at either end is left unchanged by `trim` and `rtrim` |
| Paths.TrimRightEmptyIffAllSep | wp-regenerate-thumbnails-cli.php:44 | `rtrim` leaves nothing exactly when the argument consists of separators only |
| Paths.TrimEmptyIffAllSep | wp-regenerate-thumbnails-cli.php:46 | `trim` leaves nothing exactly when the argument consists of separators only |
| Paths.JoinLength | wp-regenerate-thumbnails-cli.php:49 | `implode` output length is the summed segment lengths plus one separator between each consecutive pair |
| Paths.JoinCons | wp-regenerate-thumbnails-cli.php:49 | imploding a segment in front of a non-empty list puts exactly one separator after it |
| Paths.JoinLast | wp-regenerate-thumbnails-cli.php:49 | `implode` ends with the last character of the last segment |
| Paths.Split | wp-regenerate-thumbnails-cli.php:49 | `explode`, the inverse of `implode`, always yields at least one piece |
| Paths.SplitJoin | wp-regenerate-thumbnails-cli.php:49 | exploding an implode gives the segments back when no segment contains the separator |
| Paths.JoinSplit | wp-regenerate-thumbnails-cli.php:49 | imploding an explode gives the string back, for every string |
| Paths.Kept | wp-regenerate-thumbnails-cli.php:40-42 | the arguments surviving the `empty()` test are no more than the arguments and none of them is "" or "0" |
| Paths.KeptMembers | wp-regenerate-thumbnails-cli.php:40-42 | an argument is kept exactly when it occurs and is not `empty()` |
| Paths.KeptLength | wp-regenerate-thumbnails-cli.php:40-42 | the number kept is the number of arguments minus the number `empty()` rejects |
| Paths.KeptIdempotent | wp-regenerate-thumbnails-cli.php:40-42 | filtering the kept arguments again removes nothing |
| Paths.TrimEach | wp-regenerate-thumbnails-cli.php:46 | every later segment is the `trim` of the corresponding argument |
| Paths.ProcessFrom | wp-regenerate-thumbnails-cli.php:40-47 | once `$processed` is non-empty, the loop appends the `trim` of every later non-empty argument, in order |
| Paths.ProcessNormalizes | wp-regenerate-thumbnails-cli.php:39-48 | the loop yields the first non-empty argument right-trimmed, followed by every later non-empty argument trimmed at both ends, whatever empty arguments come before the first |
| Paths.ProcessLength | wp-regenerate-thumbnails-cli.php:39-48 | for every argument list, `$processed` holds one segment per non-empty argument: the number of arguments minus the number `empty()` rejects |
| Paths.MakePathSegments | wp-regenerate-thumbnails-cli.php:37-50 | when no normalised segment still holds a separator, exploding the path recovers the normalised arguments one by one, and their number is the number of non-empty arguments |
| Paths.MakePathIgnoresEmpty | wp-regenerate-thumbnails-cli.php:40-42 | dropping the `empty()` arguments beforehand does not change the joined segments |
| Paths.MakePathKeepsRoot | wp-regenerate-thumbnails-cli.php:43-44 | the first non-empty argument keeps its leading separator, so an absolute root stays absolute when anything else remains |
| Paths.MakePathNoTrailingSep | wp-regenerate-thumbnails-cli.php:44-49 | the path never ends in a separator when the last non-empty argument holds something other than separators |
| Paths.NormalizeLast | wp-regenerate-thumbnails-cli.php:44-46 | the last normalised segment is non-empty and does not end in a separator in that case |
| Paths.MakePathUnderRoot | wp-regenerate-thumbnails-cli.php:17-24 | joining a root ending in exactly one separator with plain names gives the root followed directly by the names joined, with no separator lost or doubled |
| Paths.SegmentsUnderRoot | wp-regenerate-thumbnails-cli.php:39-48 | for such a root and names, the loop's segments are the root without its separator followed by the names unchanged |
| Paths.TrimRightOneSep | wp-regenerate-thumbnails-cli.php:44 | `rtrim` of a string ending in exactly one separator removes just that separator |
| Paths.TrimEachClean | wp-regenerate-thumbnails-cli.php:46 | names with no separator at either end pass through `trim` unchanged |
| Paths.KeptAll | wp-regenerate-thumbnails-cli.php:40-42 | when no argument is `empty()`, every argument is kept |
| Decimal.FromNat | wp-regenerate-thumbnails-cli.php:68 | the ID spelled into a message is a non-empty digit string with no leading zero |
| Decimal.ValueFromNat | wp-regenerate-thumbnails-cli.php:68 | reading the spelled ID back gives the ID |
| Decimal.FromNatInjective | wp-regenerate-thumbnails-cli.php:68 | distinct IDs are spelled differently |
| Decimal.DigitRunFromNat | wp-regenerate-thumbnails-cli.php:78-80 | the run of digits in a message ends exactly where the spelled ID ends, since the `: "` that follows is not a digit |
| Regenerator.Check | wp-regenerate-thumbnails-cli.php:65-82 | a missing file (unresolved path or `file_exists` false) wins over everything, then empty metadata, then a `WP_Error` with its message; an attachment passes exactly when its file exists and metadata was built |
| Regenerator.ParseMessageRoundTrip | wp-regenerate-thumbnails-cli.php:68-80 | every error message carries its attachment ID and failure kind, and the `WP_Error` text appears verbatim between the quotes |
| Regenerator.MessageInjective | wp-regenerate-thumbnails-cli.php:68-80 | different attachments or different failures never produce the same message |
| Regenerator.StripPrefix | wp-regenerate-thumbnails-cli.php:68-74 | removes a message prefix exactly when the message starts with it |
| Regenerator.ErrorOrUpdate | wp-regenerate-thumbnails-cli.php:84-91 | an attachment either records exactly one error or is persisted exactly once, never both and never neither |
| Regenerator.Replay | wp-regenerate-thumbnails-cli.php:62-94 | every remaining iteration adds one generator call, one error or one update, and one progress report, and keeps progress counted 1, 2, ... |
| Regenerator.Run | wp-regenerate-thumbnails-cli.php:53-97 | one generator call per attachment, errors plus updates equal the number of attachments, progress is reported as 1..n, and `$count` ends unset for no attachments or at n |
| Regenerator.AllCalls | wp-regenerate-thumbnails-cli.php:72 | one generator call per attachment, with its ID and path, failed or not |
| Regenerator.ReplayAppend | wp-regenerate-thumbnails-cli.php:62-94 | the loop never stops early: processing a prefix and then the rest equals processing the whole |
| Regenerator.ReplayErrors | wp-regenerate-thumbnails-cli.php:88-89 | the loop appends each attachment's error in attachment order |
| Regenerator.ReplayUpdates | wp-regenerate-thumbnails-cli.php:84-86 | the loop appends each attachment's update in attachment order |
| Regenerator.ReplayCalls | wp-regenerate-thumbnails-cli.php:72 | the loop calls the generator once per attachment, in order |
| Regenerator.ReplayOutputs | wp-regenerate-thumbnails-cli.php:62-94 | the errors, updates and calls of the rest of the loop are those of the attachments taken one by one |
| Regenerator.RunOutputs | wp-regenerate-thumbnails-cli.php:62-96 | the returned errors, the updates and the generator calls of a run are the per-attachment contributions, in attachment order |
| Regenerator.GeneratorAlwaysCalled | wp-regenerate-thumbnails-cli.php:64-72 | the generator is called for every attachment, even after its file check failed, with its ID and the resolved path or `false` |
| Regenerator.RunAppend | wp-regenerate-thumbnails-cli.php:62-94 | attachments are judged independently: running two batches one after the other concatenates their errors, calls and updates |
| Regenerator.RunSingle | wp-regenerate-thumbnails-cli.php:64-91 | one attachment yields exactly the message of its first failing check and no update, or else no error and exactly one update with the metadata that was built |
| Regenerator.ErrorMembers | wp-regenerate-thumbnails-cli.php:88-89 | a message is among the errors exactly when some attachment failed with that ID and failure |
| Regenerator.UpdateMembers | wp-regenerate-thumbnails-cli.php:84-86 | an update is made exactly when some attachment passed every check with that ID and built metadata |
| Regenerator.PersistedOnlyIfClean | wp-regenerate-thumbnails-cli.php:73-86 | every update for an attachment belongs to one that passed every check and carries the metadata its generator built |
| Regenerator.CleanIsPersisted | wp-regenerate-thumbnails-cli.php:84-86 | every attachment that passed every check is persisted with its metadata |
| Regenerator.PersistIffClean | wp-regenerate-thumbnails-cli.php:65-86 | metadata is written for an attachment exactly when its checks pass, which is exactly when no error naming it was recorded, and what is written is what was built |
| Regenerator.ErrorIffFailed | wp-regenerate-thumbnails-cli.php:65-96 | an error naming an attachment is returned exactly when one of its checks failed, the message of its first failing check is among the errors, and every error naming it is that message |
| Cli.NormalizeRoot | wp-regenerate-thumbnails-cli.php:163 | the root ends in exactly one separator, and all that was removed from the resolved directory is trailing separators |
| Cli.Main | wp-regenerate-thumbnails-cli.php:139-165 | the help branch whenever `-h`/`--help` is given; the missing-path branch only without help; no run without a path and a resolved directory; `-p` is read before `--path`; the run is silent exactly with `-s`/`--silent` and is rooted at the normalised directory |
| Cli.HelpFirst | wp-regenerate-thumbnails-cli.php:139-143 | adding a help option to any command line selects the help branch |
| Cli.ShortPathWins | wp-regenerate-thumbnails-cli.php:155 | with `-p` given, adding or changing `--path` makes no difference |
| Cli.NormalizeRootIdempotent | wp-regenerate-thumbnails-cli.php:163 | normalising an already normalised root changes nothing |
| Cli.LoaderPath | wp-regenerate-thumbnails-cli.php:17 | the loader is `<root>wp-load.php` for the normalised root |
| Cli.ImageFunctionsPath | wp-regenerate-thumbnails-cli.php:19-24 | the image functions are `<root>wp-admin/includes/image.php` for the normalised root |

## Left out

- WordPress bootstrap (`define`, `require_once`, `global $wpdb`): foreign code. The model keeps only the paths the constructor builds.
- The attachment query (lines 55-58): the database is outside the model. Its result is the given sequence of attachments, in the order it returns them.
- `get_attached_file`, `file_exists`, `wp_generate_attachment_metadata`, `is_wp_error`, `get_error_message` and `wp_update_attachment_metadata`: these are foreign calls. Each is reduced to what the loop observes (`Location`, `Generated`) or to a record of the call (`Call`, `Update`).
- `printProgress`, `msg`, `printc` and the `HELP` text: terminal output only. Progress is kept as the sequence of counts passed to `printProgress`.
- `getopt`, `realpath`, `is_dir`, `die` and the `debug_backtrace` guard: process and filesystem interaction. `realpath`+`is_dir` is a function parameter.
- Cli.Main: a repeated `getopt` option (which PHP returns as an array) is not modelled; every option value is a single string.
- Cli.Main: a run ends with `Start`. The constructor and `run()` are the `Regenerator` model and are not chained to `Main`.
- `$overall` only feeds `printProgress`, which is left out; `Trace.progress` keeps only its first argument, `$count`.
- The unused `$counter = 0` local and the blank `msg('')` at the end: they have no effect on the outputs.
- Paths.Kept: PHP's `empty()` is modelled on strings only. `makePath` is only ever called with strings.
- Paths.Sep: `DIRECTORY_SEPARATOR` is fixed to `/`. On Windows it would be `\`.
- Paths.MakePathSegments: the `explode` round trip is stated only when no normalised segment contains a separator, so not for an absolute root such as `/var/www/`, where `explode` splits more finely than the arguments. The segment count itself holds for every argument list (Paths.ProcessLength).
- Regenerator.PersistIffClean, Regenerator.PersistedOnlyIfClean and Regenerator.ErrorIffFailed: these assume distinct attachment IDs, as the query's primary key gives. With repeated IDs a message or update could not be attributed to one row.
- Regenerator.Generated: non-string messages and metadata shapes other than the fields listed are not modelled. Only `empty()`-ness, `WP_Error`-ness and the message matter to the loop.
- `makePath` with only separators in its single non-empty argument (for example `"/"` alone) returns `""`. This behaviour is modelled as written. `main` never produces it, because the constructor always passes a second argument.
- Cli.Main: models the branch taken, not what is printed. In the script, the help and "path required" texts (lines 141, 147-148) go through `printc`, which reads the constant `SILENT` (line 126) before line 152 defines it. PHP 7 reads the undefined constant as the non-empty string `'SILENT'`, so nothing is printed; PHP 8 throws an Error there. Either way those texts never appear, and the script stops without a run.
- Line 158 compares `realpath`'s result with `NULL`, but `realpath` returns `false` on failure. The guard still rejects that case through `is_dir`, which is what the `realDir` parameter stands for.
