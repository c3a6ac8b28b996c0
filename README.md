# boilerplate.py, modelled in Dafny

`boilerplate.py` is a command-line tool that writes a starter Python script.
`python boilerplate.py <name>` asks a short series of questions and writes `<name>.py`:
- a description (required);
- one yes/no question per optional library of a fixed catalog;
- whether to link a GitHub repository, with the URL taken from the configuration or
  entered and optionally saved.

The written file has the following parts, in order:
- a title block;
- the metadata lines that are set in `config.json` (company, company URL, author,
  author URI, GitHub URL);
- a copyright line naming the company, else the author;
- four base imports plus the chosen ones;
- a fixed `clear_screen`/`main` skeleton.

`python boilerplate.py --edit-config` walks the five configuration fields and saves
them on a `y`.

The model treats the terminal's answers as a sequence of strings `responses`. The
current year is a parameter. The configuration file is a value `stored`
(`None` when absent) and the written file is a returned path and text.

Modules, one per file:
- `PyText` (`py_text.dfy`): the Python string built-ins the program relies on:
  - `str.strip()` with Python's whitespace set;
  - the `.lower() == 'y'` test;
  - `str.join`, and `str.split` for stating the shape of the text;
  - `str(int)` for the year.
- `Selection` (`selection.dfy`): the order-preserving "append if chosen" pattern. Both
  the import list and the metadata lines use it.
- `Prompt` (`prompt.dfy`): `get_user_input`.
- `ConfigStore` (`config_store.dfy`):
  - the configuration record and `load_config`;
  - `update_config`, as the class `Config` edited in place;
  - `edit_config_file`.
- `Generator` (`generator.dfy`): `create_boilerplate`. This covers the copyright
  holder and line, the import loop, the metadata lines, the repository-link
  questions, the text, and the in-place `github_url` update.
- `Cli` (`cli.dfy`): the `__main__` dispatch and the outcome of one run.

## Model

| member | source | states |
|---|---|---|
| PyText.Strip | boilerplate.py:22 | The stripped answer is empty exactly when the answer is all whitespace. Otherwise it starts and ends with a non-whitespace character. |
| PyText.StripPadding | boilerplate.py:22 | Stripping a trimmed text padded with whitespace on both sides gives exactly that text. |
| PyText.StripIdempotent | boilerplate.py:22 | Stripping an already stripped answer changes nothing. |
| PyText.IsYesExactly | boilerplate.py:139 | `answer.lower() == 'y'` holds for exactly "y" and "Y"; padded or longer answers are a no. |
| PyText.JoinAppend | boilerplate.py:186-189 | Joining two non-empty lists puts exactly one separator between the two joined halves. |
| PyText.SplitJoin | boilerplate.py:186-189 | Splitting a newline-join of newline-free lines at newlines gives the lines back. |
| PyText.DecimalString | boilerplate.py:110 | The year is written as a non-empty string of decimal digits without a leading zero. |
| PyText.DecimalRoundTrip | boilerplate.py:110 | Reading the written year's digits back gives the year. |
| Selection.SelectLength | boilerplate.py:137-151 | An order-preserving selection has one element per chosen item. |
| Selection.SelectAt | boilerplate.py:137-151 | The i-th chosen item sits at the position given by the count of chosen items before it. |
| Selection.SelectFrom | boilerplate.py:137-151 | Every selected element is a chosen item. |
| Selection.SelectNone | boilerplate.py:137-151 | Nothing chosen selects nothing. |
| Selection.SelectAll | boilerplate.py:137-151 | Everything chosen selects every item, in order. |
| Selection.PrefixSelectShape | boilerplate.py:117-151 | Appended after a fixed prefix, the prefix comes first, then exactly the chosen items in order, and nothing else. |
| Prompt.RequiredAnswerFirst | boilerplate.py:19-24 | The accepted answer is non-blank and every earlier answer is blank. With no accepted answer, every answer is blank. |
| Prompt.RequiredAnswerIs | boilerplate.py:19-24 | Conversely, the first non-blank answer is the accepted one. |
| Prompt.RequiredAnswerNone | boilerplate.py:19-24 | Conversely, all-blank input has no accepted answer. |
| Prompt.GetUserInput | boilerplate.py:19-24 | Required mode returns the stripped first non-blank answer (never empty) and reads exactly up to it; it returns nothing when the input runs out. Optional mode returns the first answer stripped. |
| ConfigStore.DefaultEntries | boilerplate.py:32-38 | With no file the record has exactly the five fields, all `None`. |
| ConfigStore.Config.Load | boilerplate.py:26-38 | The loaded record is the stored one, or the default record when there is no file. |
| ConfigStore.EditedValues | boilerplate.py:60-69 | The keys are unchanged. A field answered blank keeps its value, even `None`. A field answered otherwise holds the answer verbatim, unstripped. Every other key is untouched. |
| ConfigStore.EditedKeys | boilerplate.py:62-68 | Editing never adds or removes a key. |
| ConfigStore.EditedAsked | boilerplate.py:62-68 | An asked field keeps its value on a blank answer and otherwise holds the answer verbatim. |
| ConfigStore.EditedOthers | boilerplate.py:62-68 | A key that was not asked keeps its value. |
| ConfigStore.EditedAllBlank | boilerplate.py:66-69 | Blank answers to every question leave the record exactly as it was. |
| ConfigStore.EditedIdempotent | boilerplate.py:60-69 | Giving the same answers a second time changes nothing more. |
| ConfigStore.Config.Update | boilerplate.py:55-71 | Walking the five fields in order updates the record in place to the edited record. It reads one answer per field, or stops early when the input runs out. |
| ConfigStore.EditConfigFile | boilerplate.py:73-85 | The edited record is saved only on a `y`/`Y` confirmation. Any other answer discards it. Running out of input before the confirmation saves nothing. |
| Generator.CopyrightHolder | boilerplate.py:105-106 | The holder is the company name if truthy, else the author name if truthy, else empty. |
| Generator.CopyrightLine | boilerplate.py:108-112 | The line starts with "Copyright (c) " and the year and ends with ". All rights reserved.". In between is " " plus the holder exactly when there is a holder, otherwise nothing. |
| Generator.ImportStatementMatchesCatalog | boilerplate.py:124-151 | The library-to-statement rule, with its five special spellings, gives the listed statement for each catalog entry. |
| Generator.ChooseImports | boilerplate.py:116-151 | The import loop asks one question per catalog entry, in order, and builds the specified import list. |
| Generator.ImportListShape | boilerplate.py:117-151 | The list starts with the four base imports, in order. Then comes one statement per library answered yes, in catalog order, and nothing else. |
| Generator.ImportListNoneChosen | boilerplate.py:117-122 | With every library declined the list is the four base imports. |
| Generator.ImportListAllChosen | boilerplate.py:117-151 | With every library accepted the list is the base imports followed by every catalog statement. |
| Generator.AddHeader | boilerplate.py:175-184 | One metadata field's line is appended exactly when its value is truthy. |
| Generator.MetadataHeaders | boilerplate.py:174-184 | The appends produce the specified metadata lines. |
| Generator.HeaderLinesByField | boilerplate.py:174-184 | The metadata lines are the five fields' optional lines, concatenated in field order. |
| Generator.HeaderLinesShape | boilerplate.py:174-184 | There is one line per truthy value, in the order company name, company URL, author, author URI, GitHub URL. Each line is its label followed by the value. |
| Generator.HeaderEndsWithUrl | boilerplate.py:183-184 | An entered URL is the last metadata line, after its label. |
| Generator.HeaderLinesNone | boilerplate.py:174-184 | With no value set there are no metadata lines. |
| Generator.LinkDecision | boilerplate.py:153-165 | No answer left: the questions are unanswered. A non-`y` answer gives no URL and no save. A `y` with a truthy configured URL uses it without asking and never saves. A `y` with none configured goes on to the URL and save questions. A save happens only on `y` with no URL configured. |
| Generator.NewLinkSave | boilerplate.py:158-163 | The URL and save questions are answered exactly when an answer follows the accepted URL. The URL is saved exactly when that next answer is a yes. |
| Generator.LinkEntered | boilerplate.py:153-163 | A `y`, blank URL attempts, a URL, then a save answer: the stripped URL is linked either way, and saved exactly when the save answer is a yes. |
| Generator.LinkUrlNonEmpty | boilerplate.py:154-159 | After a `y` to the link question the URL is never empty. |
| Generator.NewLinkUrl | boilerplate.py:158-159 | A newly entered URL is the stripped first non-blank answer, so it is never empty. |
| Generator.AskLink | boilerplate.py:153-165 | Asking the link questions gives the decision above. |
| Generator.AskNewLink | boilerplate.py:158-163 | Asking for a URL and the save answer gives the decision above: the URL is saved only on a yes to the save question. |
| Generator.PreambleLines | boilerplate.py:167-172 | The title block is its five lines joined with newlines, plus a final newline. |
| Generator.JoinLayout | boilerplate.py:186-202 | Joining the layout's lines gives the layout's text. |
| Generator.TextIsJoin | boilerplate.py:167-202 | The generated text is its expected lines joined with newlines. |
| Generator.TextLines | boilerplate.py:167-202 | For newline-free inputs the text's lines are, in order: the title block; the metadata lines, or one empty line when there are none; the copyright line; a blank line; the imports; a blank line; the skeleton. |
| Generator.AssembleText | boilerplate.py:167-191 | The `+=` steps build exactly that text. |
| Generator.QuestionsAnswersShape | boilerplate.py:114-165 | A completed session has a non-empty, stripped description. It saves a URL only when none was configured, and the saved URL is non-empty. It answered at least the description, every catalog question and the link question. |
| Generator.AfterDescriptionShape | boilerplate.py:137-165 | After the description, a completed session keeps the description and saves only a non-empty URL that was not configured. It used at least one answer per catalog entry plus the link question. |
| Generator.AskRemaining | boilerplate.py:116-165 | The catalog and link questions give the specified answers. Running out of input gives nothing. |
| Generator.AskQuestions | boilerplate.py:114-165 | All the questions, in order, give the specified answers. |
| Generator.MetadataValues | boilerplate.py:99-103 | Five values are read from the configuration for the header. |
| Generator.MetadataFromConfig | boilerplate.py:99-103 | The header values are company name, company URL, author name and author URL, in that order, each the configured value, with an absent key reading as `''`; the fifth is the link URL. Each is truthy exactly when its configured field is. |
| Generator.FinishCopyright | boilerplate.py:99-112 | The text's copyright line names the configured company if set, else the configured author if set, else nobody. |
| Generator.Compose | boilerplate.py:99-191 | Building the copyright line, the metadata lines and the text gives the specified generation record. |
| Generator.SaveAnswerOnlyPersists | boilerplate.py:155-165 | Declining or accepting the save gives the same text and the same URL; only whether the URL is saved differs. |
| Generator.RememberGithubUrl | boilerplate.py:161-162 | The configuration gains the entered `github_url` exactly when its save was asked for. Nothing else changes. |
| Generator.CreateBoilerplate | boilerplate.py:96-205 | Yields the specified generation for the answers. The configuration object changes only by the saved `github_url`. |
| Cli.Dispatch | boilerplate.py:218-227 | The script name alone gives the usage error. `--edit-config` gives the editor. Anything else is the filename. |
| Cli.Run | boilerplate.py:204-227 | No argument: status 1, nothing saved or written. Editor: status 0, with the record saved only on `y`. Generator: writes `<filename>.py` with the specified text, saves the configuration only with the entered URL asked for, status 0. Input running out: status 1, nothing saved or written. |

## Left out

- JSON reading and writing (`json.load`, `json.dump`) and the file system are not modelled. The configuration file is the value `stored`. Its values are limited to strings and `null`.
- `clear_screen`, every `print` (including `display_config` and the usage text) and the prompt texts are not modelled: they are terminal output only. The library purposes exist only to be shown in the questions.
- `datetime.now().year` is the parameter `year`.
- `load_or_create_config` and `update_config_for_boilerplate` are not modelled separately. The first only returns what `load_config` returns, and the second returns its argument unchanged. The model calls `load_config` directly.
- `sys.exit` is a returned status.
- End of input is not modelled as an exception. `input()` raises `EOFError` when the input ends; the run then ends with the uncaught error, status 1 and not 0, so the model ends it with status 1 and leaves the configuration and the output file untouched. The configuration is saved in `create_boilerplate` only after the last question, so no save can come before the end of input.
- ConfigStore.Config.Update: a stored configuration that lacks one of the five fields is excluded by a precondition. `update_config` would raise `KeyError` on it.
- Cli.Run: the same precondition applies, but only on the `--edit-config` path.
- Cli.Dispatch: requires a non-empty argument vector, and so does `Cli.Run`. Python always puts the script name first, so an empty `sys.argv` does not occur; the program would then pass both tests and end with status 0.
- PyText.Lower: lowers ASCII letters only. For the only comparison made, `== 'y'`, this is exact: no other character lowercases to `y`.
- Generator.CreateBoilerplate computes the copyright line after the questions. The source computes it before them. The computation reads no input, so the result is the same.
- The configuration save in the link questions is modelled as the new value of the configuration file at the end of the run. The source saves it at once. No later step can fail before the end of the run except the file write, which is not modelled.
- The write of `<filename>.py` is the returned `File(path, content)`.
