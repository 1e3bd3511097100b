# mcp-server-fs: search/replace patching, note store and Markdown summary

`server.py` exposes filesystem tools to an agent. Most of them forward straight
to `os`, `shutil`, `ast`, `re` or JSON file I/O. This project models the three
tools with logic of their own, and proves what they promise:

- **`patch_file`** reads a file and applies a list of `(search, replace)` pairs
  in list order. Each pair is one Python `str.replace` over the text left by the
  earlier pairs. The result is written back. A search text that does not occur
  is skipped silently. The file is the `content` field of `Patching.TextFile`,
  and `PatchFile` is the loop. Its invariant ties the running text to
  `ApplyPatches` of the patches applied so far.
- **`add_note` / `remove_note`** update a nested dictionary
  `path -> (key -> note)` kept in `.mcp-notes.json`. `remove_note` deletes one
  note. It drops the path entry when that entry becomes empty, and it saves only
  when it deleted something. The dictionary is the `notes` field of
  `Notes.NoteFile`. Loading reads the field and saving writes it. The relative
  path is an input.
- **`summary`** returns, for a `.md` file, the stripped form of every line whose
  stripped form starts with `#`, in file order. A path ending in neither `.md`
  nor `.py` raises `ValueError("Unsupported file type: <path>")`.

The Python built-ins these tools use are modelled with Python's semantics in
`PyText`:

- `str.replace`: non-overlapping matches, scanning left to right. An empty
  pattern puts the replacement before every character and at the end.
- `str.split(sep)` and `sep.join`.
- `str.strip`, using the whitespace set of `str.isspace`.
- `str.endswith`.

`IsGreedySplit` says what a left-to-right cut at every occurrence is, without
reference to the algorithm. `Split` is proved to be that cut, and the only one.
`ReplaceAll` is proved equal to `rep.join(s.split(pat))`. Together these state
that every occurrence is replaced, scanning left to right.

Files: `wrappers.dfy` (Option/Result), `pytext.dfy` (module `PyText`),
`patching.dfy` (`Patching`), `notes.dfy` (`Notes`), `summary.dfy` (`Summary`).

## Model

| member | source | states |
|---|---|---|
| `Patching.TextFile.PatchFile` | server.py:56-69 | the content written back is the read content with every patch applied in list order (`ApplyPatches`), each on the running text |
| `Patching.ApplyPatches` | server.py:65-66 | the text the loop leaves after a list of patches: each patch is `str.replace` on the text the earlier ones produced; its meaning is carried by `ApplyPatchesAppend`, `ApplyPatchesCons`, `UnmatchedPatchSkipped` and `IdentityPatches` |
| `Patching.ApplyPatchesAppend` | server.py:65-66 | patches run strictly in order: the patches after a prefix act on the content that prefix produced |
| `Patching.ApplyPatchesCons` | server.py:65-66 | the first patch acts on the content read from the file, and the remaining patches act on its result |
| `Patching.UnmatchedPatchSkipped` | server.py:65-66 | a patch whose search text does not occur in the content it meets is a no-op, raises nothing, and the later patches still run |
| `Patching.IdentityPatches` | server.py:62-69 | with no patches, or with only patches whose search and replace agree, the content written equals the content read |
| `Patching.OrderMatters` | server.py:65-66 | a later search matches text an earlier replacement introduced: `a->b, b->c` turns "a" into "c", while the reverse order gives "b" |
| `Patching.ReplacesEveryOccurrence` | server.py:66 | every occurrence is replaced, not only the first: `x->yy` turns "xax" into "yyayy" |
| `PyText.ReplaceAll` | server.py:66 | Python's `str.replace`; with a non-empty search it equals `rep.join(s.split(search))` (`ReplaceAllIsJoinSplit`), where the split is the unique greedy left-to-right cut (`SplitIsGreedy`, `GreedySplitUnique`); with an empty search it interleaves the replacement (`InterleaveIsJoin`) |
| `PyText.Split` | server.py:84 | Python's `str.split` with a non-empty separator yields at least one piece; `SplitIsGreedy` and `GreedySplitUnique` show it is exactly the greedy left-to-right cut at every occurrence |
| `PyText.EndsWithIsSuffix` | server.py:82-87 | `path.endswith(suffix)`, tested for ".md" and then ".py", holds exactly when the path is some text followed by the suffix |
| `PyText.ReplaceAllIsJoinSplit` | server.py:66 | for a non-empty search, `str.replace` equals `rep.join(s.split(search))`, so every piece of the greedy left-to-right split is kept and every cut becomes `rep` |
| `PyText.SplitIsGreedy` | server.py:66 | the split joins back to the text; no occurrence starts inside a piece before a cut, so each cut is the leftmost match left; the last piece has no occurrence |
| `PyText.GreedySplitUnique` | server.py:66 | any cut satisfying the greedy left-to-right conditions is exactly `Split`, so those conditions characterise it |
| `PyText.InterleaveIsJoin` | server.py:66 | an empty search string inserts the replacement before every character and at both ends (Python's `"ab".replace("", "X") == "XaXbX"`) |
| `PyText.ReplaceAllNoMatch` | server.py:66 | a search text that does not occur leaves the text unchanged |
| `PyText.ReplaceAllSelf` | server.py:66 | replacing a search text by itself leaves the text unchanged, including the empty search |
| `PyText.Strip` | server.py:84 | the stripped line is no longer than the line and neither starts nor ends with a character Python's `str.isspace` accepts |
| `PyText.StripUnique` | server.py:84 | stripping any whitespace-surrounded text that neither starts nor ends with whitespace gives exactly that text |
| `Summary.ComprehensionAppend` | server.py:83-85 | a list comprehension `[f(x) for x in xs if keep(x)]` over two runs of input gives the results for the first run followed by those for the second |
| `Summary.ComprehensionPicks` | server.py:83-85 | every element a comprehension yields is `f(x)` for some input `x` that the condition accepts |
| `Summary.MarkdownSummary` | server.py:83-85 | the Markdown summary has at most one entry per line of `content.split("\n")`, and each entry starts with `#` and has no leading or trailing whitespace |
| `Summary.HeadingsWellFormed` | server.py:83-85 | every summary line starts with `#` and has no leading or trailing whitespace |
| `Summary.HeadingsAppend` | server.py:83-85 | the headings of two runs of lines are the headings of the first followed by those of the second, so file order is kept |
| `Summary.HeadingLineKept` | server.py:83-85 | a line whose stripped form starts with `#` contributes that stripped form, at its own place among the other headings |
| `Summary.OtherLineDropped` | server.py:83-85 | a line whose stripped form does not start with `#` contributes nothing |
| `Summary.SummaryLinesStripped` | server.py:84 | stripping a Markdown summary line again leaves it unchanged |
| `Summary.LinesRejoin` | server.py:84 | the lines `content.split("\n")` yields join back with `"\n"` into the whole content, so no text is lost before filtering |
| `Summary.Summarize` | server.py:82-95 | `.md` is checked first and always succeeds with `MarkdownSummary` of the content; then `.py` is delegated to the parser; any other path gives `ValueError("Unsupported file type: " + path)` |
| `Notes.WithNote` | server.py:198-200 | after `add_note` the note is stored under (path, key), and a missing path entry is created. Every other (path, key) entry is unchanged. No empty entry appears if there was none before |
| `Notes.WithoutNote` | server.py:224-227 | `remove_note` deletes exactly (path, key), and drops the path entry iff that was its only key. A missing path or key changes nothing. No empty entry appears if there was none before |
| `Notes.RemoveUndoesAdd` | server.py:187-228 | adding a note under a new key and then removing it gives back the original store, when that store had no empty entries |
| `Notes.LastAddWins` | server.py:198-200 | adding twice under the same path and key keeps only the second note |
| `Notes.NoteFile.AddNote` | server.py:187-202 | the saved store is `WithNote` of the loaded store, and the no-empty-entries invariant is preserved |
| `Notes.NoteFile.RemoveNote` | server.py:214-228 | the store is saved iff the path holds the key. The new store is `WithoutNote` of the loaded store, and the no-empty-entries invariant is preserved |

## Left out

- `ls`, `cd`, `read_file`, `write_file`, `mkdir`, `rm`, `rmdir`, `cp`, `mv` (server.py:14-148): these pass straight through to `os` or `shutil` and have no logic of their own.
- File reading and writing in `patch_file` and `summary` (server.py:62-63, 68-69, 79-80): the file content is the `TextFile.content` field, or an input to `Summarize`. That content is the text after Python's text-mode newline translation, not the file's bytes: reading turns "\r\n" and "\r" into "\n", and writing turns "\n" into the platform's line separator. So the model does not show that a search text containing "\r" never matches in a file with CRLF endings, nor that `patch_file` with no patches still rewrites CRLF endings as LF on POSIX. Encoding errors and missing files are not modelled either.
- `_get_notes_file`, `_load_notes`, `_save_notes` (server.py:151-174): they search the filesystem and serialise JSON. The store is the in-memory `NoteFile.notes` field. Malformed JSON, which would raise, is not modelled.
- `_get_relative_path` (server.py:177-184): it depends on the working directory and on `pathlib`. The relative path is an input, so its `ValueError` for paths outside the notes root is not modelled.
- `get_all_notes` (server.py:205-211): it only returns the loaded store.
- The `.py` branch of `summary` (server.py:87-93) calls Python's `ast` parser. `Summarize` takes that parser as the parameter `pyOutline` and returns what it returns.
- `grep` (server.py:231-258): it needs regular expressions, directory walking and handling of decode errors.
- `ls_many`, `read_files`, `summarize` (server.py:261-291): they only build dictionaries from the I/O calls above.
- FastMCP tool registration (server.py:9-11) is framework plumbing.
- Concurrency: two processes updating the same file or notes store at once are not modelled.
