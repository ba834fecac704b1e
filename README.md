# ssh.py configuration reader, modelled in Dafny

`ssh.py` is a small command-line tool that reads the OpenSSH client
configuration (`~/.ssh/config`, format of the `ssh_config(5)` manual page)
and lists the hosts configured in it. This project models its reader,
`SSHConfig.load`, the host splitter `_get_hosts`, the settings pattern
`SETTINGS_REGEX`, and the rows that `list host` prints. It proves what a
reading yields.

The reader works line by line:

- Each line is stripped of surrounding whitespace.
- Blank lines and lines starting with `#` are skipped.
- Every other line must match `(\w+)(?:\s*=\s*|\s+)(.+)`. A line that does
  not fails the reading with `Unparsable line`.
- The key is lower-cased.
- A `Host` line appends the open block to the object's list and opens a new
  block. The new block's host patterns are the line's argument split by
  `shlex.split`. An argument with an open quotation fails the reading with
  `Unparsable host`, after the open block was appended.
- `ProxyCommand none`, in any letter case, stores an explicit marker.
- Any other argument loses one pair of surrounding double quotes.
- `identityfile`, `localforward` and `remoteforward` accumulate into a list.
- For every other key, the first value in a block wins.
- Reading starts with an implicit block for the pattern `*`. The block still
  open at the end is appended as well.

Files and modules:

- `text.dfy` (`Text`): `strip()`, `lower()` and the `\s` and `\w` classes,
  for ASCII.
- `settings_regex.dfy` (`SettingsRegex`): the settings pattern as a function
  `MatchSetting`. The function follows the regular-expression engine's
  backtracking. It is proved sound and complete against a declarative
  reading of the pattern (`Decomposes`).
- `shlex.dfy` (`Shlex`): `shlex.split` as the state machine of Python's
  POSIX-mode `shlex` lexer, with `whitespace_split` on and no comment
  characters. `None` stands for the `ValueError` raised on an open quotation
  or a trailing escape.
- `host_block.dfy` (`HostBlock`): values, blocks, and the effect of one
  setting line (`Apply`). It also holds the per-key rules as lemmas over the
  setting lines of a block.
- `parser.dfy` (`ConfigParser`): the per-line classification and the reading
  as a pure function `Walk`/`Parse`. It also holds a reference description
  of the file cut into sections at its `Host` lines (`Sections`), and the
  lemmas tying the two together.
- `ssh_config.dfy` (`ConfigFile`): the class `SSHConfig` with its list
  `config` and the imperative `Load` loop. `Load` is proved to append exactly
  what `Walk` describes.
- `listing.dfy` (`HostListing`): the rows of `list host`.
- `wrappers.dfy` (`Wrappers`): `Option` and `Result`.

## Model

| member | source | states |
|---|---|---|
| Text.Strip | ssh.py:60 | the stripped line is a slice of the line with only whitespace removed before and after it, has no whitespace at either end, and is empty exactly when the line is all whitespace |
| Text.Lower | ssh.py:67 | lower-casing keeps the key's length; what it does to each character and that it is idempotent are `LowerAt` and `LowerIdempotent` |
| Text.LowerAt | ssh.py:67 | lower-casing maps every character on its own: upper-case ASCII letters to lower case, everything else unchanged |
| Text.LowerIdempotent | ssh.py:67 | a lower-cased key lower-cases to itself, so stored keys are in lower case |
| SettingsRegex.ValueStart | ssh.py:46 | where the value group starts, when the pattern matches: after a non-empty word run and before the end of the line, on a character `.` accepts |
| SettingsRegex.MatchSetting | ssh.py:46 | on a match, the key is a non-empty run of word characters that begins the line and the value is non-empty and holds no newline; no match exactly when no value start exists |
| SettingsRegex.MatchSound | ssh.py:46 | a match is a decomposition of the line into key, separator (`\s*=\s*` or `\s+`) and value, and the value runs to the end of the line or to a newline |
| SettingsRegex.MatchComplete | ssh.py:46 | whenever the line has any decomposition, the pattern matches with the same key, and its separator is at least as long as that one's |
| Shlex.SplitPlain | ssh.py:103 | without quotes or backslashes, `shlex.split` returns the maximal runs of non-blank characters, in order |
| Shlex.SplitUnbalanced | ssh.py:102-105 | in an argument with no single quote and no backslash, splitting fails exactly when the number of double quotes is odd |
| Shlex.Split | ssh.py:103 | `shlex.split` of a `Host` argument as the POSIX-mode lexer's state machine; what it returns is stated by `SplitPlain`, `SplitUnbalanced`, `SplitDoubleQuoted` and `SplitQuotedExample` |
| Shlex.LexDoubleQuoted | ssh.py:103 | inside double quotes, text with no `"` and no backslash goes into the current word as it is, blanks included, and the closing quote marks the word as present even when empty |
| Shlex.SplitDoubleQuoted | ssh.py:103 | an argument that is one double-quoted text with no inner `"` and no backslash splits into exactly that text, as one pattern |
| Shlex.SplitQuotedExample | ssh.py:103 | `"a b" c` splits into the two patterns `a b` and `c` |
| HostBlock.Unquote | ssh.py:82-83 | a value that starts and ends with `"` loses exactly its first and last character, and a lone `"` becomes empty; any other value is unchanged |
| HostBlock.UnquoteWrapped | ssh.py:82-83 | exactly one layer of quotes comes off, whatever the quoted text holds |
| HostBlock.Apply | ssh.py:76-94 | a setting line keeps the settings well shaped (lists exactly under the three multi-valued keys, the marker only under `proxycommand`), sets its key, and leaves every other key unchanged |
| HostBlock.QuotedNoneIsText | ssh.py:76-83 | a quoted `"none"` is not the `ProxyCommand none` marker; it is stored, unquoted, as the text `none` |
| HostBlock.Build | ssh.py:76-94 | the settings of a block built from its setting lines are well shaped (lists exactly under the three multi-valued keys, the marker only under `proxycommand`); what each key holds is `BuildKeys`, `FirstValueWins`, `MultiValuesAccumulate` and `ProxyCommandNone` |
| HostBlock.BuildKeys | ssh.py:76-94 | a key is set in a block exactly when some setting line of the block gives it |
| HostBlock.FirstValueWins | ssh.py:93-94 | a key other than the multi-valued ones and `proxycommand` holds the unquoted argument of its first line in the block |
| HostBlock.MultiValuesAccumulate | ssh.py:88-92 | `identityfile`, `localforward` and `remoteforward` hold every unquoted argument given in the block, in order: N lines give a list of length N |
| HostBlock.ProxyCommandNone | ssh.py:76-80 | `proxycommand` holds the marker exactly when some argument given for it lower-cases to `none`, wherever that line stands; otherwise its first unquoted argument |
| ConfigParser.Classify | ssh.py:60-70 | the decision taken on one raw line (skip, malformed, `Host` line or setting); all four cases, with the key and value of a matched line, are stated by `ClassifyCases` |
| ConfigParser.ClassifyCases | ssh.py:60-70 | a line is skipped exactly when it is all whitespace or starts with `#` once stripped; a line not skipped and not matching the pattern is malformed and reported stripped; a matching line is a `Host` line carrying the value group exactly when its keyword lower-cases to `host`, and otherwise a setting whose key is the lower-cased keyword and whose value is the value group; a setting's key is lower case, is not `host`, and its value is non-empty |
| ConfigParser.GetHosts | ssh.py:98-105 | the host patterns are `shlex.split` of the argument; it fails with `Unparsable host` and the argument exactly when splitting fails |
| ConfigParser.Walk | ssh.py:54-96 | the reading of the classified lines from a given open block: the blocks it appends and the error it stops at; stated by its step lemmas (`WalkSkip`, `WalkHost`, `WalkSetting`) and by `WalkBlockCount`, `WalkFailsIff`, `WalkFailure` and `WalkBuildsSections` |
| ConfigParser.WalkSkip | ssh.py:61-62 | step lemma of `Walk`: a skipped line leaves the reading where it was |
| ConfigParser.WalkHost | ssh.py:70-75 | step lemma of `Walk`: a `Host` line appends the open block and opens one with the split patterns and no settings, or fails with the splitter's error after appending |
| ConfigParser.WalkSetting | ssh.py:76-94 | step lemma of `Walk`: any other setting line changes the open block's settings as `Apply` says |
| ConfigParser.LineSkipped | ssh.py:60-62 | step lemma of `Walk` on raw lines: a blank or comment line of the file does not change the rest of the reading |
| ConfigParser.LineMalformed | ssh.py:64-66 | step lemma of `Walk` on raw lines: a line that does not match ends the reading with `Unparsable line` and the stripped line, appending nothing more |
| ConfigParser.LineHost | ssh.py:67-75 | step lemma of `Walk` on raw lines: a line whose lower-cased key is `host` closes the open block and opens the next, or fails after closing it |
| ConfigParser.LineSetting | ssh.py:67-94 | step lemma of `Walk` on raw lines: a line with any other key continues the reading with that setting applied to the open block |
| ConfigParser.SkippedLinesIgnored | ssh.py:60-62 | removing every blank and comment line does not change what a reading yields |
| ConfigParser.WalkBlockCount | ssh.py:56-96 | the first block a reading appends is the one open when it starts; a reading without error appends one block per `Host` line, plus one |
| ConfigParser.WalkFailsIff | ssh.py:54-96 | a reading fails exactly when some line is not well formed (does not match, or is a `Host` line whose argument does not split) |
| ConfigParser.WalkFailure | ssh.py:64-75 | a failed reading reports the error of the first line that is not well formed, having appended one block per earlier `Host` line, plus one when the failing line is itself a `Host` line |
| ConfigParser.WalkBuildsSections | ssh.py:56-96 | a reading of well-formed lines appends one block per section, in order, each with its section's host patterns and its setting lines applied in order |
| ConfigParser.SectionHosts | ssh.py:70-75 | the sections' host patterns are the current section's, then the split argument of each `Host` line, in order |
| ConfigParser.Parse | ssh.py:54-96 | a successful reading from the implicit `*` block yields one block more than there are `Host` lines, the first for `*` |
| ConfigParser.ParseShape | ssh.py:54-96 | a reading succeeds exactly when every line is well formed; it then yields 1 + (number of `Host` lines) blocks, the first for `*`, the others with the split `Host` arguments, in file order |
| ConfigFile.SSHConfig.constructor | ssh.py:52 | the object's list of blocks starts empty |
| ConfigFile.SSHConfig.Load | ssh.py:54-96 | the loop appends to the object's list exactly the blocks the reading describes (also when it fails), and returns the whole list or the reading's error |
| ConfigFile.SetOption | ssh.py:76-94 | the loop body's update of the open block for one setting line, written as the source's branches, leaves its host patterns alone and gives it the settings `Apply` describes |
| ConfigFile.LoadTwice | ssh.py:52-96 | loading the same file twice through one object returns the blocks twice over; a failing file fails the same way both times |
| HostListing.HostRow | ssh.py:176-180 | a block's row lists the block's own host patterns; `hostname` is `get('hostname')` when that is a non-empty string or list, and the host patterns otherwise (so, for well-shaped settings, a non-empty string or the host patterns); `user` and `identityfile` are `get` of their keys, `None` when missing; which setting lines these cells come from is `SectionRow` |
| HostListing.HostRows | ssh.py:171-180 | one row per block after the first, in order, each the row of that block (so with its block's host patterns) |
| HostListing.FirstArgumentCell | ssh.py:178-179 | the `user` or `hostname` cell of a block is its first unquoted argument, or `None` when the block has none |
| HostListing.SectionRow | ssh.py:176-180 | a block's row: `hostname` is its first argument unless that is missing or empty, in which case it is the host patterns; `user` is its first argument or `None`; `identityfile` is the list of all its arguments or `None` |
| HostListing.SectionRows | ssh.py:171-180 | the listing of sections' blocks has a row for each section but the first, with the cells its setting lines call for |
| HostListing.ListedHosts | ssh.py:171-180 | listing a file whose lines are all well formed gives one row per `Host` line, in file order, each with that line's split argument and the cells its setting lines call for |

## Left out

- File access is not modelled: `open`, iterating over the file, and `create_path_if_not_exist` with its `os.makedirs`. The file is given as the sequence of its lines. How the file is cut into lines, including newline translation, is not modelled.
- Only ASCII is modelled for `\s`, `\w`, `str.strip()` and `str.lower()`. Under Python 3, `\w`, `\s` and `lower()` also act on non-ASCII characters. Under Python 2 byte strings, the characters U+001C to U+001F are not whitespace, while here they are, as under Python 3.
- Shlex.Split: models only the settings `shlex.split` uses (POSIX mode, whitespace splitting, no comments). Proved about it: splitting without quotes or backslashes, when splitting with double quotes only fails, and a single double-quoted word without backslashes. Single quotes and backslash escapes are modelled by the state machine, but no lemma states what they yield.
- Exceptions are modelled as the `ParseError` result. Their message text (`"Unparsable line %s"`) is modelled by the error's constructor and the offending text.
- ConfigFile.SSHConfig.Load: returns a copy of `config` (a value), while the source returns the list object `self._config` itself. A list returned by one call therefore does not grow when a later call appends to the object's list, as the source's does.
- ConfigFile.SSHConfig.Load: the open block is a value that the loop replaces, not a dictionary updated in place. Nothing refers to the open block before it is appended, so for the open block no sharing is lost. The per-line settings update is factored into `SetOption`.
- ConfigFile.LoadTwice: `first` is the value of the list after the first call. In the source, `first` and `second` are the same list object, so after the second call `first` also holds the blocks twice over.
- The `ssh_conf_file` path argument of `SSHConfig.__init__` is not modelled.
- `SSHConfig.dump` and `SSHConfig.reformat` are empty stubs.
- `SSHKeyManager` is not modelled:
  - `generate` runs `ssh-keygen` as a subprocess and exits.
  - `list` is a directory scan.
  - `delete` is a stub.
- The cliff command wiring is not modelled: `ListCommand.get_parser`, the `key` and error branches of `take_action`, `SSHApp` and `main`.
- HostListing.HostRows: the header tuple `('host', 'hostname', 'user', 'identityfile')` is not part of the rows. Python's lazy generator is modelled as a sequence.
- `setup.py` holds packaging metadata only.
