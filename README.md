# sculblog content pipeline, modelled in Dafny

sculblog is a small command-line tool that keeps a static PHP blog consistent.
A **category** is three things at once: a directory under the site's base
directory, a generated `chain.php` include stub inside it, and an SQLite table
named after the category with a fixed schema. A **post** is a row in its
category's table plus a generated `<file_name>.php` stub. Its content comes
from a markdown file in a separate content tree. That file is rendered to HTML
and reduced to a plain-text preview, and both are stored in the post's row.

The model covers the whole pipeline:

- the date formatter (`custom_date_format`);
- the preview extractor (`create_preview_html`);
- the two stub writers (`create_post_php`, `create_chain_php`);
- category provisioning (`create_category`);
- post registration (`create_post`);
- content synchronisation (`process_markdown_file`).

All of these act on one **world**. The world has:

- the set of directories of the output tree;
- the generated files, as a map from path to contents;
- the database, as a map from table name to `Table(schema, rows)`;
- the markdown source tree, as a map from path to contents.

Modules, in dependency order:

- `Wrappers` holds `Option`.
- `Text` holds Rust's `str::replace`, decimal rendering and parsing of integers, and splitting on a character.
- `Dates` holds the display date and its inverse parser.
- `Preview` holds a direct scan for the regular expression `<[^>]+>`, UTF-8 byte lengths, and the 1500-byte cut.
- `Stubs` holds the exact text of both stubs and the functions that read a name back from a stub.
- `Store` holds the world, rows, the fixed schema, and the row-level `INSERT` and `UPDATE`.
- `ManagePost` and `Provision` hold the operations of `src/manage_post.rs` and `src/main.rs` as pure transitions `World -> Step(World, Outcome)`, with the lemmas about them.
- `Site` holds the class `Blog`. Its fields are the parts of the world, and its methods perform the operations step by step, in place, as the Rust code does. Each method is proved to end in exactly the state and outcome that the transition gives. Each method also keeps the world invariant `ValidWorld`: no path is both a directory and a file, and every table's ids increase with insertion order.

Inputs that the Rust code reads from its environment are parameters here:

- The clock reading is a `Date`.
- The markdown renderer is a total function `render: string -> string`. Being a function value, it is deterministic by construction.
- I/O failures are a set `faults`, naming which of the operation's file-system or database calls fail in this run.

Strings are sequences of Unicode scalar values, like a Rust `str`. Their length in bytes is the length of their UTF-8 encoding. So the preview's `&text[..1500]` is modelled exactly. It panics when byte 1500 falls inside a multi-byte character. The model returns `None` from `CreatePreviewHtml` in that case, and `process_markdown_file` then ends with `Failed(Panicked)`. The world is left unchanged, since the panic happens before the `UPDATE`.

A failed existence query (`query_row(...).unwrap_or(false)`) is read as "no row". So when that query fails, `create_post` inserts a second row for a post that already has one. The model keeps this behaviour and states it in `RegisterDuplicatesOnFailedQuery`.

## Model

| member | source | states |
|---|---|---|
| Dates.CustomDateFormat | src/manage_post.rs:11-28 | The display date is at least 8 characters long, and a single space follows the two-character day. |
| Dates.DateLayout | src/manage_post.rs:15-27 | The date has exactly three space-separated fields. The day is two digits, zero-padded, with the value of the day. Month 6 is "June" and month 7 is "July". Every other month is its three-letter English abbreviation. The third field reads back as the year. |
| Dates.DateRoundTrip | src/manage_post.rs:20-27 | Parsing a formatted date gives back the same day, month and year, so the format loses nothing. |
| Preview.TagAt | src/manage_post.rs:88 | When it finds a match at the start of the string, that prefix matches `<[^>]+>`. When it finds none, no prefix matches. |
| Preview.StripTags | src/manage_post.rs:88-89 | Stripping never makes the text longer. |
| Preview.StripTagsLeavesNoTag | src/manage_post.rs:88-89 | After stripping, no substring matches `<[^>]+>`. |
| Preview.StripTagsFixpoint | src/manage_post.rs:88-89 | Text in which no substring matches is returned unchanged. |
| Preview.StripTagsIdempotent | src/manage_post.rs:88-89 | Stripping twice gives the same result as stripping once. |
| Preview.StripTagsSubsequence | src/manage_post.rs:88-89 | The output is the input with some characters deleted. The kept characters stay in their original order. |
| Preview.StripTagsChars | src/manage_post.rs:88-89 | Every output character occurs in the input. |
| Preview.NoOpenBracketUnchanged | src/manage_post.rs:88-89 | Input with no `<` is returned unchanged. |
| Preview.EmptyBracketsKept | src/manage_post.rs:88-89 | `<>` is never a match, because the class `[^>]+` needs at least one character. Both brackets stay, and whatever follows is stripped as usual: `StripTags("<>" + rest) == "<>" + StripTags(rest)`. |
| Preview.UnclosedBracketKept | src/manage_post.rs:88-89 | A `<` with no `>` anywhere after it starts no match. It stays, and everything after it stays too. |
| Preview.StripTagsDropsLeadingTag | src/manage_post.rs:88-89 | A tag at the front is removed whole. The rest is stripped as if the tag were absent. |
| Preview.StripTagsKeepsPlainPrefix | src/manage_post.rs:88-89 | A prefix without `<` is kept as it is. |
| Preview.StripTagsParagraph | src/manage_post.rs:88-89 | `<p>a<b>b</b></p>` strips to `a` followed by `b`. For example, `<p>Hello <b>World</b></p>` strips to `Hello World`. |
| Preview.CutAtByte | src/manage_post.rs:91 | When the slice succeeds, the result is a prefix of the text that is exactly n bytes long. |
| Preview.CutAtByteNone | src/manage_post.rs:91 | The slice panics exactly when no prefix of the text is n bytes long. |
| Preview.CreatePreviewHtml | src/manage_post.rs:87-95 | A preview is at most 1503 bytes long. A panic can only happen when the stripped text is longer than 1500 bytes. |
| Preview.PreviewContract | src/manage_post.rs:90-94 | Stripped text of at most 1500 bytes is returned unchanged. Longer text gives a prefix of exactly 1500 bytes followed by "...", 1503 bytes in all. The call panics exactly when the stripped text is over 1500 bytes and no prefix is exactly 1500 bytes long. |
| Preview.PreviewAscii | src/manage_post.rs:90-94 | On ASCII input the cut never panics. The preview is the stripped text, or its first 1500 characters followed by "...". |
| Preview.PreviewPanicsInsideCharacter | src/manage_post.rs:91 | 1499 ASCII letters followed by `é` make the slice panic. |
| Stubs.PostStub | src/manage_post.rs:31 | The post stub is the fixed head, then the file name, then the fixed tail. The file name sits exactly between the two. |
| Stubs.ChainStub | src/main.rs:70-73 | The category stub is the fixed head, then the category name, then the fixed tail. The category name sits exactly between the two. |
| Stubs.PostStubRoundTrip | src/manage_post.rs:31 | The text between the fixed head and tail of a post stub is the file name it was written for. |
| Stubs.ChainStubRoundTrip | src/main.rs:70-73 | The text between the fixed head and tail of a category stub is the category it was written for. |
| Stubs.StubsInjective | src/main.rs:70-73 | Distinct posts get distinct stubs. Distinct categories get distinct stubs. |
| Store.Insert | src/manage_post.rs:59-67 | The `INSERT` appends one row and keeps every earlier row. The table then holds one more row for the file name, so the existence query finds it. `InsertProperties` gives the rest. |
| Store.SetContent | src/manage_post.rs:144-150 | The `UPDATE` keeps the row count, and every row keeps its id and `file_name`. `SetContentAt`, `SetContentKeeps` and `SetContentIdempotent` give the rest. |
| Store.NextId | src/main.rs:95 | The AUTOINCREMENT id given to a new row is greater than every id already in the table. |
| Store.EntriesPositive | src/manage_post.rs:53-57 | The existence query finds a row exactly when at least one row has that `file_name`. |
| Store.InsertProperties | src/manage_post.rs:61-67 | An insert adds exactly one row for the given file name. Counts for other names do not change. Ids stay increasing. |
| Store.SetContentAt | src/manage_post.rs:144-150 | The `UPDATE` sets `text` and `preview_html` on every row with that `file_name`. All other columns and all other rows are untouched. Row order and the row count do not change. |
| Store.SetContentKeeps | src/manage_post.rs:144-150 | The update keeps ids increasing. It does not change which file names have a row. |
| Store.SetContentIdempotent | src/manage_post.rs:144-150 | Running the same update twice gives the same rows as running it once. |
| Text.Replace | src/manage_post.rs:107-108 | Rust's `str::replace`: a left-to-right scan that replaces non-overlapping occurrences. `ReplaceFront`, `ReplaceKeepsPrefix`, `ReplaceAbsent` and `ReplaceLeavesNoPattern` state what it does. |
| Text.ReplaceFront | src/manage_post.rs:107-108 | An occurrence of the pattern at the front becomes the replacement, and the scan resumes right after it. |
| Text.ReplaceKeepsPrefix | src/manage_post.rs:107-108 | A prefix without the pattern's first character is copied unchanged, and the rest is replaced on its own. |
| Text.ReplaceAbsent | src/manage_post.rs:107-108 | A string in which the pattern does not occur is returned unchanged. |
| Text.ReplaceKeepsOut | src/manage_post.rs:107-108 | A character in neither the input nor the replacement is not in the output. |
| Text.ReplaceRemovesChar | src/manage_post.rs:107 | Replacing a one-character pattern with text that lacks it removes every copy of that character. |
| Text.ReplaceLeavesNoPattern | src/manage_post.rs:108 | The pattern no longer occurs anywhere in the output, provided the replacement lacks the pattern's first character and does not begin with any character of the pattern. |
| ManagePost.ContentRoot | src/manage_post.rs:104-108 | After substitution, the content directory contains no `~` and no occurrence of `$HOME`. |
| ManagePost.ContentRootExpands | src/manage_post.rs:104-108 | A leading `~` becomes `/home/diego`, and so does a leading `$HOME`. Text with neither `~` nor `$` is kept, and the rest is substituted on its own. For example, `~/notes` and `$HOME/notes` both become `/home/diego/notes`. |
| ManagePost.ContentRootSubstitutes | src/manage_post.rs:104-108 | A directory with neither placeholder is used as it is. |
| ManagePost.SourcePath | src/manage_post.rs:110-113 | The markdown source lies under the substituted content directory, and its name ends in `.md`. |
| ManagePost.PostStubStep | src/manage_post.rs:30-39 | Writing the stub never changes directories, tables or sources. On success, something exists at the stub's path. |
| ManagePost.PostStubContract | src/manage_post.rs:30-39 | The stub is written only when nothing exists at its path, and then holds exactly the post stub text. An existing stub is left unchanged. A failed write changes nothing. No other path, table, directory or source changes. The step fails exactly when nothing is at the stub's path and either the write fails or the directory is missing. |
| ManagePost.PostStubKeepsValid | src/manage_post.rs:30-39 | Writing the stub keeps the world invariant. |
| ManagePost.EntryFound | src/manage_post.rs:53-57 | `query_row(...).unwrap_or(false)`: true when the table exists, the query does not fail, and a row has that `file_name`. |
| ManagePost.EntryFoundCounts | src/manage_post.rs:53-57 | The existence query says yes exactly when the table exists, the query does not fail, and the table holds at least one row for the file name. |
| ManagePost.RegisterStep | src/manage_post.rs:41-72 | Registration never changes directories or sources. On success, the category's table has a row for the post. |
| ManagePost.RegisterContract | src/manage_post.rs:41-72 | If the category directory is missing, the call fails and changes nothing. The stub is written before the row check, so a database failure leaves it in place. On success the table has a row for the post. A new row has the next id, the given file name, date and header, `show = ""`, `tags = " "`, and NULL elsewhere. When the row already existed, the tables are unchanged. Directories, sources and other tables never change. No file but the stub changes. An existing stub keeps its content, and a newly written one holds the post stub text. A failed stub write changes nothing. With the directory and table in place, and no failure in the stub write, the open or the insert, registration succeeds. |
| ManagePost.RegisterKeepsValid | src/manage_post.rs:41-72 | Registration keeps the world invariant. |
| ManagePost.RegisterIdempotent | src/manage_post.rs:53-69 | Once a registration has succeeded, registering again changes nothing, as long as the second existence query does not fail. |
| ManagePost.RegisterTwiceOneRow | src/manage_post.rs:53-69 | A fresh post registered twice has exactly one row. |
| ManagePost.RegisterDuplicatesOnFailedQuery | src/manage_post.rs:53-57 | When the existence query fails and the insert succeeds, the post gets one more row, even if it already had one. |
| ManagePost.SyncStep | src/manage_post.rs:98-163 | Synchronisation never changes directories, sources or which tables exist. Every failure except the final stub write leaves the world unchanged. |
| ManagePost.SyncFailures | src/manage_post.rs:116-137 | A missing source fails before the database is consulted. A missing row, a missing table or a failed query fails next, with `NoEntry`. Every failure except the final stub write leaves the world unchanged. That last one leaves the files and directories unchanged, but the `UPDATE` stays in the table: nothing is rolled back. |
| ManagePost.SyncSucceedsWhen | src/manage_post.rs:116-159 | Synchronisation succeeds exactly when the source exists, the store opens, the row is found, the source can be read, the preview does not panic, the update runs, and the stub either exists already or can be written. |
| ManagePost.SyncSuccess | src/manage_post.rs:140-159 | On success, every row of the post has `text = render(source)` and `preview_html = preview(render(source))`. Other rows, columns and tables are untouched. The stub exists afterwards. A missing stub is created with the post stub text. An existing stub is left unchanged. |
| ManagePost.SyncKeepsValid | src/manage_post.rs:98-163 | Synchronisation keeps the world invariant. |
| ManagePost.SyncIdempotent | src/manage_post.rs:140-159 | Once a synchronisation has succeeded, synchronising again leaves the world unchanged, whatever fails the second time. |
| Provision.ChainStep | src/main.rs:69-79 | Writing `chain.php` never changes directories, tables or sources. On success the file names the category. A failure changes nothing. |
| Provision.ChainOverwrites | src/main.rs:69-79 | `chain.php` is always rewritten with the category stub, whatever it held before. It then names the category. Nothing else changes. |
| Provision.ProvisionStep | src/main.rs:81-111 | Provisioning never changes sources and never drops or alters an existing table. On success the directory and the table exist. |
| Provision.ProvisionContract | src/main.rs:81-111 | On success the directory exists, `chain.php` holds the category stub, and the table exists. A new table has the fixed nine-column schema and no rows. An existing table keeps its rows. The steps run in the order directory, stub, table, with no rollback: each failure leaves exactly what the earlier steps did. Provisioning succeeds exactly when none of its four calls fails, no file sits at the directory's path, and no directory sits at `chain.php`. |
| Provision.ProvisionKeepsValid | src/main.rs:81-111 | Provisioning keeps the world invariant. |
| Provision.ProvisionIdempotent | src/main.rs:81-111 | Once a provisioning has succeeded, provisioning again leaves the world unchanged, whatever fails the second time. |
| Provision.ProvisionThenRegister | src/main.rs:81-111 | After provisioning, registering a post in the category passes the existence check. With no I/O failure, it succeeds and leaves a row for the post. |
| Site.Blog.CreatePostPhp | src/manage_post.rs:30-39 | Ends in the state and outcome of `PostStubStep`, and keeps the world invariant. |
| Site.Blog.CreateChainPhp | src/main.rs:69-79 | Ends in the state and outcome of `ChainStep`, and keeps the world invariant. |
| Site.Blog.CreateCategory | src/main.rs:81-111 | Ends in the state and outcome of `ProvisionStep`, and keeps the world invariant. |
| Site.Blog.CreatePost | src/manage_post.rs:41-72 | Ends in the state and outcome of `RegisterStep`, and keeps the world invariant. |
| Site.Blog.ProcessMarkdownFile | src/manage_post.rs:98-163 | Ends in the state and outcome of `SyncStep`, and keeps the world invariant. |

## Left out

- `markdown_to_html` (src/manage_post.rs:74-85) is not modelled. It calls the pulldown-cmark library with strikethrough, tables and footnotes enabled. Here it is the parameter `render`, about which nothing is assumed beyond being a function.
- The regex crate is replaced by a direct scan (`TagAt`, `StripTags`) that states what `<[^>]+>` matches.
- `Local::now` is not modelled. The date is an input, and only its day and month are constrained, to the ranges the clock returns.
- chrono's `%b` is the fixed table of twelve English abbreviations.
- SQL text is not modelled: statement strings, table names spliced into statements, and `Connection::open` on `db_path`. There is one database, a map of tables. `db_path` is not part of `Config`.
- Store and file-system failures are modelled only as "this call fails", chosen by `faults`, with no cause attached.
- Path semantics are not modelled. `Join` is string concatenation with `/`. `Path::join` discarding the base for an absolute component is not captured, and neither are permissions or symbolic links.
- `create_dir_all` is modelled only as "this directory now exists", or as failure when a file is at that path. Parent directories it would create are not added to the world.
- `fs::write` is modelled as failing when its directory is missing or its path is a directory. Other causes of failure are covered only by `faults`.
- `fs::read_to_string` failing on non-UTF-8 content is covered only by the `ReadSource` fault.
- Configuration loading, the TOML file and `$HOME` lookup (src/main.rs:17-67) are not modelled. Neither is argument dispatch in `main` (src/main.rs:113-158), including its read of `args[5]` after checking only `len < 5`.
- `println!` logging is not modelled.
- Table names are not case-folded. SQLite treats `News` and `news` as the same table, but the model keys `tables` by the exact category string, as it does directories. So two categories that differ only in case share one table in SQLite and get two in the model.
- PHP's reading of the stubs is not modelled. The name is spliced unescaped into a PHP string literal: double-quoted in the post stub, single-quoted in the category stub. What PHP makes of a name holding `$`, `\`, `"` or `'` is outside the model. The round-trip lemmas state only that the text between the fixed head and tail is the name.
- Concurrency is not modelled. Operations run one at a time, each as a single transition.
