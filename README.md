# pronto prompt line, modelled in Dafny

`pronto` prints one shell-prompt line. The line is the current working directory with the home directory abbreviated to `~`, coloured cyan. After it comes the name of the checked-out git branch in parentheses, read from `.git/HEAD`. This project models how that line is computed and proves what it looks like.

Three modules, leaves first:

- `Strings` (`strings.dfy`) covers the two Rust `str` operations the branch extraction uses. `Split` splits at a character; `rsplit('/').next()` is its last piece, `LastPiece`. `Trim` is `trim`, over Rust's Unicode white-space set (`char::is_whitespace`).
- `Paths` (`paths.dfy`) covers Unix paths as `std::path` sees them. A path is a sequence of components (`RootDir`, `CurDir`, `ParentDir`, `Normal(name)`). `Components` parses text the way `Path::components` does: repeated `/` and inner `.` vanish, and a leading `.` stays as `CurDir`. `Display` writes a path back. `StripPrefix` is `Path::strip_prefix`, that is, removal of a prefix of the component sequence.
- `Prompt` (`prompt.dfy`) covers `src/main.rs`. `GetPath` is `get_path`. `Branch` and `GitStatusFile` are `get_git_status_file`. `Line` is the text `main` prints. `println!` ends the line with a newline, which `Line` appends.

The inputs that `main.rs` reads from its environment are parameters here:
- The working directory is a `Path` in the shape `current_dir` returns: the root followed by plain names (`Canonical`). `DisplayCanonical` proves that parsing its displayed text gives back the same components. So `strip_prefix` on the text and on the components agree.
- `HOME` is a string. It is parsed by `Components`, so `HOME=/home/u/` and `HOME=/home//u` behave like `HOME=/home/u`.
- The result of reading `.git/HEAD` is an `Option<string>`. `None` means the read failed.

The contents of `.git/HEAD` are read as raw text. A branch whose name holds a `/` therefore shows only its last part: `refs/heads/feature/x` gives `x` (`BranchOfNested`).

## Model

| member | source | states |
|---|---|---|
| `Strings.Split` | src/main.rs:35-38 | There is always at least one piece, so `rsplit('/').next()` always yields a value and the `expect` cannot fire. No piece holds the separator. Joining the pieces with the separator gives back the input. |
| `Strings.SplitJoin` | src/main.rs:35-36 | Splitting a join of separator-free pieces gives back exactly those pieces. So splitting and joining are inverse. |
| `Strings.LastPiece` | src/main.rs:35-37 | The first piece that `rsplit` yields holds no separator. It is a suffix of the input. It is either the whole input or directly preceded by a separator. |
| `Strings.LastPieceUnique` | src/main.rs:35-37 | The three properties of `LastPiece` determine it: any string with them is the text after the last `/`. |
| `Strings.IsWhitespace` | src/main.rs:39 | The white-space test `trim` uses, `char::is_whitespace`. It has no contract of its own; `WhitespaceExactly` characterises it. |
| `Strings.WhitespaceExactly` | src/main.rs:39 | A character is white space exactly when it is one of the 25 characters with the Unicode White_Space property: U+0009 to U+000D, U+0020, U+0085, U+00A0, U+1680, U+2000 to U+200A, U+2028, U+2029, U+202F, U+205F and U+3000. |
| `Strings.TrimStart` | src/main.rs:39 | The result is a suffix of the input. Everything removed is white space. The result does not start with white space. |
| `Strings.TrimEnd` | src/main.rs:39 | The result is a prefix of the input. Everything removed is white space. The result does not end with white space. |
| `Strings.Trim` | src/main.rs:39 | The result is a contiguous part of the input with only white space on either side of it. It has white space at neither end. |
| `Strings.TrimPadded` | src/main.rs:39 | Trimming white-space padding off a string with no white space at its ends gives exactly that string. |
| `Strings.TrimIdempotent` | src/main.rs:39 | Trimming twice is the same as trimming once. |
| `Strings.TrimWhitespace` | src/main.rs:39 | Trimming text that is all white space gives the empty string. |
| `Paths.Components` | src/main.rs:13-15 | The text of `HOME` becomes components. The result starts with the root exactly when the text starts with `/`. After the first position there is never a root or current-directory component. |
| `Paths.StripPrefix` | src/main.rs:15 | The prefix test is on whole components. It succeeds exactly when the base's components begin the path's. Base plus rest is the path. |
| `Paths.Display` | src/main.rs:17-18 | `Path::display`: the root as a leading `/`, the other components joined by `/`. It has no contract of its own; `DisplayCanonical` and `DisplayNames` are its inverse lemmas. |
| `Paths.DisplayCanonical` | src/main.rs:9-18 | Parsing the displayed text of a directory path gives back its components. So the unchanged path on line 18 reads back as the same directory. |
| `Paths.DisplayNames` | src/main.rs:17 | Parsing the displayed text of the remaining names gives back those names. |
| `Paths.TrailingSlash` | src/main.rs:13 | A trailing `/` does not change the components of a non-empty path. |
| `Prompt.GetPath` | src/main.rs:15-19 | The result is `~` when the directory's components equal home's. It is `~/` and the displayed rest when the directory is strictly below home. It is the directory's displayed text when home's components do not begin the directory's. |
| `Prompt.GetPathCases` | src/main.rs:15-18 | Each case holds exactly when its condition holds, in both directions. The result is `~` iff the directory is home. It starts with `~/` iff the directory is strictly below home. It starts with `~` iff the directory is at or below home. It starts with `/` iff the directory is outside home. |
| `Prompt.GetPathExpands` | src/main.rs:15-19 | The abbreviation loses nothing. Expanding the result against the same `HOME` (`~` to home, `~/x` to home followed by `x`) gives back the working directory, for every value of `HOME`. |
| `Prompt.SiblingIsOutside` | src/main.rs:15 | With `HOME=/home/u`, the directory `/home/u2` shows unchanged as `/home/u2`. The match is component-wise, not a text prefix. |
| `Prompt.GetPathOfProject` | src/main.rs:15-17 | With `HOME=/home/u`, the directory `/home/u/proj` shows as `~/proj`. |
| `Prompt.HomeU` | src/main.rs:13 | `HOME=/home/u` has the components root, `home`, `u`. |
| `Prompt.HomeTrailingSlash` | src/main.rs:13-15 | For a non-empty `HOME`, a trailing `/` does not change the abbreviation. |
| `Prompt.Branch` | src/main.rs:35-39 | The extracted branch holds no `/`. It has no white space at either end. It is no longer than the contents. |
| `Prompt.BranchAfterLastSlash` | src/main.rs:35-39 | For any contents that hold a `/`, the branch is the text after the last `/`, trimmed. |
| `Prompt.BranchOfRef` | src/main.rs:35-39 | For contents of the form text, `/`, white space, name, white space, where the name holds no `/` and has no white space at either end, the branch is that name. The name may be empty: `x/` followed by a newline gives the empty branch. |
| `Prompt.BranchOfDetached` | src/main.rs:35-39 | Contents with no `/` (a detached HEAD's commit hash) give the whole contents, trimmed. |
| `Prompt.BranchOfMain` | src/main.rs:35-39 | `ref: refs/heads/main` followed by a newline gives `main`. |
| `Prompt.BranchOfNested` | src/main.rs:35-39 | `ref: refs/heads/feature/x` followed by a newline gives `x`: only the last part of a branch name that holds `/` is shown. |
| `Prompt.GitStatusFile` | src/main.rs:32-44 | The segment is empty exactly when the read failed. Otherwise it is ` (`, then the branch, then `)`. |
| `Prompt.GitStatusOfRef` | src/main.rs:32-41 | For `.git/HEAD` contents of the form text, `/`, white space, name, white space, where the name holds no `/` and has no white space at either end, the segment is ` (`, that name, `)`. An empty name gives ` ()`. |
| `Prompt.Line` | src/main.rs:52-55 | The line starts with the cyan sequence (ESC `[36m`) and ends with a newline. It ends with the reset sequence (ESC `[0m`) directly followed by the newline exactly when there is no git segment. |
| `Prompt.LineShowsDirectory` | src/main.rs:52-55 | The text between the cyan sequence and the next escape character is the abbreviated path, provided no directory name holds an escape character. Expanded against `HOME`, that text gives back the working directory. |
| `Prompt.LineOnRef` | src/main.rs:47-55 | For such contents the printed line is the cyan sequence, the abbreviated directory, the reset sequence, ` (`, the name, `)`, and a newline. |

## Left out

- Reading the working directory and `HOME` (`src/main.rs:9`, `src/main.rs:11`), and the panics when either is unavailable: both are environment I/O. The values are parameters instead.
- Reading `.git/HEAD` (`src/main.rs:33`) is file I/O. Its outcome is an `Option<string>` parameter. Every read error, including a file that is not UTF-8, is `None`, because `main.rs` treats all errors alike.
- `get_git_status` (`src/main.rs:23-30`) is dead code that runs a `git` subprocess. It is not modelled.
- Printing (`println!`, `src/main.rs:55`) is I/O. The model produces the printed text only. It does not model how a terminal interprets the escape sequences.
- Paths that are not valid UTF-8, and the lossy conversion `Path::display` applies to them, are left out: strings here are sequences of Unicode scalar values.
- `Prompt.GetPath`: the working directory is assumed to have the shape `current_dir` returns: absolute, with no `.` or `..` parts, no empty names and no trailing `/`. The displayed-text claims depend on this. `Display` writes the components back, which matches the text `current_dir` returns for such a path.
- Windows path prefixes and separators are left out: the model covers Unix paths only.
