# LectureMateBot core, modelled in Dafny

LectureMateBot is a Telegram bot that runs on AWS Lambda. It summarises
YouTube transcripts with OpenAI completions. It records each user's videos,
notes and OpenAI key in two DynamoDB tables: users keyed by `chat_id`, and
videos keyed by `video_id`. It keeps files in S3. It answers questions from
chunks retrieved out of a vector store. This project models the local logic
of that glue code. Vendor calls are replaced by function parameters or by
maps.

- `wrappers.dfy` (`Wrappers`): `Option` and `Result`.
- `text.dfy` (`Text`): the Python string operations the code relies on.
  - `str()` of an integer;
  - `str.split` with one separator, and the segment after its last separator;
  - `str.join`;
  - substring containment.
- `summary.dfy` (`Summary`): `generate_summary_pdf`.
  - The token slicing uses exact arithmetic. `floor(3600 / 1.4)` is `3600 * 5 div 7 = 2571`. `round(0.4 * len)` is `(2 * len + 2) div 5`.
  - The two prompt builders.
  - The sequence of completion calls, two per slice.
  - The blank-line join and the output path.
  - The tokenizer (`encode`/`decode`) and the completion service are fields of a `Backend` parameter. The completion function also receives its call number, so the call order can be stated.
- `store.dfy` (`Store`): every function of `dynamodb_handler.py`.
  - The two tables are maps from key to item. An item is an ordered list of attribute/value pairs: the key first, then the other attributes in the order they were first written.
  - The add-to-list writes return the new tables and an optional error. The retrievals return the value or an error. The two update operations return the new tables and never fail. The errors stand for the source's `KeyError`s.
- `objectkeys.dfy` (`ObjectKeys`): the S3 key and the local path strings of `s3_storage_handler.py`.
- `chat.dfy` (`Chat`): from `chat_utils.py`:
  - the question template;
  - the vector-store query;
  - flattening the query results into chunks;
  - the chat request built from the chunks;
  - `ask`, with the store and the chat service as parameters.
- `bot.dfy` (`Bot`): from `index.py`:
  - the `/list_my_videos` reply (lines 68-77);
  - the choice of OpenAI key in `process_event` (lines 38-44);
  - how these connect to the store.

## Model

| member | source | states |
|---|---|---|
| Summary.PartFitsBudget | lambda-func/summary.py:66-67 | A part of at most 2571 tokens plus its word target fits within `MAX_AVAILABLE_TOKEN_SIZE` = 3600. This leaves room for the summary. |
| Summary.SliceFitsBudget | lambda-func/summary.py:66-80 | Every slice of every transcript, plus its word target, fits within 3600 tokens. |
| Summary.MaxPartLenIsTight | lambda-func/summary.py:66-67 | The bound is tight: 2572 tokens plus their word target of 1029 overrun 3600. |
| Summary.MaxPartLenIsFloor | lambda-func/summary.py:67 | `max_part_len` is 2571. This is the floor of the real quotient 3600 / (1 + 0.4), with 0.4 read as the exact rational 2/5. |
| Summary.SliceCount | lambda-func/summary.py:73 | `ceil(token_count / max_part_len)`. It is zero exactly for empty input. Otherwise `k` slices of at most 2571 tokens cover the input, and `k - 1` do not. It is at most 1 when the input fits in one part. |
| Summary.SliceRange | lambda-func/summary.py:68-75 | With Python's slice clipping, slice `i` is the token range from `i * part_len` to `min((i+1) * part_len, n)`. That range is non-empty and at most 2571 long. |
| Summary.SlicesPartition | lambda-func/summary.py:72-82 | Concatenating the slices in order gives back the whole token sequence. There are no gaps, overlaps or reordering. |
| Summary.SlicesBounded | lambda-func/summary.py:66-75 | There are `SliceCount(n)` slices. Each is non-empty and at most 2571 tokens long. A non-empty input of at most 2571 tokens is a single slice. |
| Summary.WordTarget | lambda-func/summary.py:80 | The word target is within one half of `0.4 * len`, and at most `len`. |
| Summary.WordTargetIsRound | lambda-func/summary.py:80 | The word target is the only integer within one half of `0.4 * len`. `0.4 * len` is never a tie, so Python's banker's rounding agrees with it. |
| Summary.SummaryPromptRoundTrip | lambda-func/summary.py:38-48 | `create_summary_prompt`: the prompt embeds the word target and the decoded transcript part so that both can be read back exactly. |
| Summary.MarkdownPromptRoundTrip | lambda-func/summary.py:50-61 | `create_markdown_prompt`: the prompt embeds the text and the `create_title` flag so that both can be read back exactly. |
| Summary.MarkdownPromptDirective | lambda-func/summary.py:55 | The prompt contains "Do not create level 1 heading." if and only if a title is not allowed, or the wrapped text already contains that sentence. |
| Summary.SliceCallsMeaning | lambda-func/summary.py:82-87 | For slice `i`: call `2i` gets a summary prompt carrying the slice's word target and decoded text. Call `2i+1` gets a markdown prompt carrying call `2i`'s reply, with titles allowed only for slice 0. |
| Summary.SummarizeSlices | lambda-func/summary.py:77-91 | The loop issues exactly two completion calls per slice, in slice order. It keeps the second reply of each slice as that slice's segment. |
| Summary.GenerateSummaryPdf | lambda-func/summary.py:64-97 | Whole run: the slices are exactly `Slices` of the encoded transcript, so `SliceRange` fixes where each cut falls. They partition the encoded transcript, and their count is the ceiling quotient. There are `2 * slices` calls, as above. The document is the segments joined with `"\n\n"`. The path is `/tmp/summary_{video_id}.pdf`. |
| Summary.OutputPath | lambda-func/summary.py:94 | The file name is `/tmp/summary_` followed by the video id and `.pdf`. The video id can be read back from between the two, so distinct videos get distinct files. |
| Text.JoinContents | lambda-func/summary.py:93 | `"\n\n".join(results)` is the first segment, followed by every later segment in order, each preceded by exactly one separator. |
| Text.JoinSnoc | lambda-func/summary.py:93 | Joining one more segment appends the separator and that segment, and leaves the earlier text unchanged. |
| Text.JoinLength | lambda-func/summary.py:93 | The joined document's length is the total length of the segments, plus one separator for each neighbouring pair. |
| Text.NatToString | lambda-func/index.py:74 | `str(n)` of a non-negative integer is at least one decimal digit, with no leading zero. `Text.ParseNatToString` is its inverse. |
| Text.Split | lambda-func/s3_storage_handler.py:8 | `split("/")` gives at least one piece, and no piece contains `/`. `Text.JoinSplit` is its inverse. |
| Text.ParseNatToString | lambda-func/index.py:74 | `str(n)` of a non-negative integer reads back as `n`. |
| Text.JoinSplit | lambda-func/s3_storage_handler.py:8 | Joining the pieces of `split("/")` with `"/"` gives back the original string. |
| Text.LastSegmentIsSuffix | lambda-func/s3_storage_handler.py:8 | `split("/")[-1]` is a suffix of the path that has no `/`. It is the whole path, or it is preceded by a `/`. |
| ObjectKeys.FileName | lambda-func/s3_storage_handler.py:8 | The file name has no `/`. It is the whole path when the path has no `/`, and otherwise the text after the last `/`. |
| ObjectKeys.UploadKey | lambda-func/s3_storage_handler.py:8 | The upload key starts with `folder/` and ends with the uploaded file's own name. |
| ObjectKeys.DownloadKey | lambda-func/s3_storage_handler.py:15 | The download key starts with `folder/`. A slash-free file name is its last segment. |
| ObjectKeys.DownloadPath | lambda-func/s3_storage_handler.py:14 | The destination starts with `/tmp/`, and a slash-free file name is its last segment. |
| ObjectKeys.UploadDownloadAgree | lambda-func/s3_storage_handler.py:8-15 | The upload key for a path equals the download key for that path's file name, in the same folder and item. The downloaded copy keeps the name. |
| ObjectKeys.KeySegments | lambda-func/s3_storage_handler.py:15 | A key built from slash-free parts splits back into exactly `[folder, item_id, file_name]`. |
| ObjectKeys.KeyInjective | lambda-func/s3_storage_handler.py:15 | Two keys built from slash-free parts are equal if and only if their folder, item and name are equal. |
| Store.GetPut | lambda-func/dynamodb_handler.py:174-184 | After `SET name = value`, the attribute reads back as the value, and every other attribute keeps its value. |
| Store.PutShape | lambda-func/dynamodb_handler.py:174-184 | A write keeps attribute names distinct and the existing attributes in place. A new attribute is added last. |
| Store.AppendIfAbsent | lambda-func/dynamodb_handler.py:103-114 | After `x not in xs` / `list_append`, the list contains `x`. If `x` was already present, the list is unchanged. Otherwise it extends the old list by one element. It has exactly the old elements plus `x`, and stays duplicate-free if it was. |
| Store.AddVideoToUser | lambda-func/dynamodb_handler.py:76-117 | It succeeds exactly when the user has a `videos` list. The new list is then the old one with the video appended if absent. A video already listed causes no write at all. A missing user fails without a write. A missing list is written as `[]` and then fails. A non-list value fails without a write. No other user, attribute or video changes. |
| Store.AddNoteToUser | lambda-func/dynamodb_handler.py:120-162 | The same for `notes`, including no write for a note already listed, except that a missing user is created with `notes = []` before the failure. |
| Store.AddVideoIdempotent | lambda-func/dynamodb_handler.py:103 | A successful add, repeated, changes nothing and succeeds. |
| Store.AddNoteIdempotent | lambda-func/dynamodb_handler.py:148 | A successful note add, repeated, changes nothing and succeeds. |
| Store.SetUserAttrsWellFormed | lambda-func/dynamodb_handler.py:174-184 | Writing non-key attributes keeps names distinct, and keeps every item's own key. |
| Store.AddVideoWellFormed | lambda-func/dynamodb_handler.py:86-114 | `add_video_to_user` preserves the table invariant, whether it succeeds or fails. |
| Store.AddNoteWellFormed | lambda-func/dynamodb_handler.py:130-159 | `add_note_to_user` preserves the table invariant, whether it succeeds or fails. |
| Store.LookupVideos | lambda-func/dynamodb_handler.py:23-34 | It succeeds exactly when every listed id is a string naming a stored video. It then returns one record per id, in list order. |
| Store.RetrieveUserVideos | lambda-func/dynamodb_handler.py:7-36 | A missing user or missing `videos` gives the empty list. A list gives its videos' records in order. |
| Store.NoteNames | lambda-func/dynamodb_handler.py:53-58 | It succeeds exactly when every note is a string. It then returns one name per note, in order. |
| Store.RetrieveUserNotes | lambda-func/dynamodb_handler.py:39-58 | A missing user or missing `notes` gives the empty list. Otherwise it gives the names in order. |
| Store.RetrieveUserOpenAiCreds | lambda-func/dynamodb_handler.py:61-73 | `None` exactly when the user or the attribute is missing. Otherwise it is exactly the stored string. |
| Store.UpdateUserItem | lambda-func/dynamodb_handler.py:164-187 | Afterwards the user exists, and each given attribute holds `S(str(value))`. The user's other attributes are unchanged, and a new user has no others. Other users and all videos are unchanged, and the invariant is kept. |
| Store.UpdateVideoItem | lambda-func/dynamodb_handler.py:190-207 | No arguments means no write. Otherwise the video exists and each given attribute holds its string. A newly created record holds `video_id` and the given attributes and nothing else, so the video list prints nothing more. Other attributes and videos, and all users, are unchanged, and the invariant is kept. |
| Store.FirstVideoIsLost | lambda-func/dynamodb_handler.py:85-103 | For a user item without `videos`, the source stores `[]` and fails. The corrected operation stores `[video_id]`. |
| Store.FirstNoteIsLost | lambda-func/dynamodb_handler.py:129-148 | For a missing user or a missing `notes` list, the source stores `[]` and fails. The corrected operation stores `[file_name]`. |
| Store.AddIdToList | lambda-func/dynamodb_handler.py:77 | The docstring's append-if-absent, with a missing user or list read as empty. The id always ends up in the list, and nothing else changes. |
| Store.AddIdToListAgrees | lambda-func/dynamodb_handler.py:103-114 | Wherever the source succeeds, the corrected operation succeeds with the same list. |
| Chat.ApplyPromptTemplate | lambda-func/chat_utils.py:61-69 | The question sits verbatim between the fixed head and tail, and can be read back out. |
| Chat.TemplateInjective | lambda-func/chat_utils.py:61-69 | Two questions give the same prompt if and only if they are equal. |
| Chat.BuildQueries | lambda-func/chat_utils.py:17-24 | Exactly one query, for the prompt, with no filter and `top_k = 1`. |
| Chat.FlattenAppend | lambda-func/chat_utils.py:101-103 | Flattening distributes over concatenation of result lists. |
| Chat.FlattenPosition | lambda-func/chat_utils.py:100-103 | Outer-then-inner order: chunk `j` of result `i` is at position `Offset(i) + j` of the chunk list. |
| Chat.RetrievedChunks | lambda-func/chat_utils.py:100-103 | The nested loop of `ask` builds exactly the flattened chunk list. |
| Chat.ChatRequestFor | lambda-func/chat_utils.py:72-90 | The request uses `gpt-3.5-turbo`, 200 tokens and temperature 0.7. It has `len(chunks) + 1` user messages: the chunks in order, then the templated question. |
| Chat.ChatRequestInjective | lambda-func/chat_utils.py:77-83 | Two requests are equal if and only if their questions and chunk lists are equal. |
| Chat.RequestDetermined | lambda-func/chat_utils.py:72-90 | Exactly one request carries a given question over given chunks. It has the fixed model, `max_tokens` and temperature, only `user` messages, the chunks as all but the last message, and the templated question last. `ChatRequestFor` builds that request. |
| Chat.Ask | lambda-func/chat_utils.py:93-111 | Stated against any request that carries the question over the chunks flattened out of the store's reply, in outer-then-inner order. The answer is missing exactly when the chat reply to that request has no choice, which is the source's `IndexError`. Otherwise it is the reply's first choice. |
| Bot.RenderVideoList | lambda-func/index.py:68-77 | The reply is "You haven't requested any video yet." exactly for an empty list. Otherwise it starts with the header. |
| Bot.EntriesAreConcat | lambda-func/index.py:72-77 | After the header, the reply is exactly one block per video, in list order. Block `i` is `str(i+1) + ". "` and then that video's `k: v` lines. |
| Bot.AppendVideoAppendsEntry | lambda-func/index.py:73-76 | One more video at the end adds exactly its block at the end of the reply, with the next number. Earlier text is unchanged. |
| Bot.EntryNumber | lambda-func/index.py:74 | Each block starts with its 1-based number, and that number reads back as `i + 1`. |
| Bot.RenderVideoListLoop | lambda-func/index.py:72-77 | The handler's `+=` loops build exactly the reply defined above. |
| Bot.ListMyVideos | lambda-func/index.py:68-77 | A user the table does not hold gets the no-videos reply. Otherwise the reply renders the retrieved videos. |
| Bot.SelectOpenAiKey | lambda-func/index.py:40-43 | The `if encrypted_openai_creds:` test: no stored key, or an empty one, selects the default key. A non-empty stored key selects its decryption. |
| Bot.OpenAiKeyFor | lambda-func/index.py:39-43 | No user or no stored key means the default key. A stored non-empty key means its decryption, and an empty one the default (Python truthiness). |
| Bot.ProcessEvent | lambda-func/index.py:38-44 | The username is recorded first. The key chosen afterwards is the one the stored item selected before the update. |
| Bot.RegisteredKeyIsUsed | lambda-func/index.py:39-43 | The key is stored by the `/provide_openai_key` handler's `update_user_item(..., openai_key=...)` call at line 96 of the same file, with `Bot.KeyAttrs` as its arguments. Once an encrypted key is stored, later updates use its decryption. If the stored text is empty, they use the default key. |
| Bot.NewUserFirstVideoIsLost | lambda-func/index.py:38 | A new user's item, created by `process_event`, holds only `chat_id` and `username`. A direct `add_video_to_user(client, chat_id, video_id)` on it fails as written (`dynamodb_handler.py:85-103`), and the corrected operation records the video. |

## Left out

- The OpenAI completion and chat calls (`get_completion`, `openai.ChatCompletion.create`) are function parameters. Only the prompts, the call order and the reply's first choice are modelled. So are the vector store's `query`, the KMS `decrypt`, and tiktoken's `encode`/`decode`.
- The pyrate_limiter rate limit (3 calls a minute, blocking) is left out: it is timing inside a third-party library.
- `markdown_to_pdf` (Markdown to HTML to PDF with wkhtmltopdf) is left out. The model stops at the joined document and the output path.
- The float constants 0.4 and 1.4 are exact rationals. IEEE rounding is not modelled, and it does not change 2571 or any word target.
- The `print` and `logging` calls are left out, and so are the module-level reads of `USERS_NAME`, `VIDEOS_NAME` and `BUCKET_NAME`. The two tables are fields of `Db`.
- The S3 transfers themselves are left out; only the key and path strings are modelled.
- DynamoDB's own semantics are assumed, not modelled:
  - `get_item` with `AttributesToGet` on an existing item that lacks the attribute returns an empty `Item`.
  - An `update_item` on a missing key creates the item.
  - The order of attributes in a record is the model's own: key first, then attributes in first-write order. DynamoDB promises no order, and the rendering iterates whatever order the client returns.
- Video records hold only string attributes, because `update_video_item` writes only `S` values. `retrieve_user_videos`' `list(val_dict.values())[0]` therefore takes the string.
- `update_user_item` and `update_video_item` take their arguments already converted by `str()`. Attribute names are distinct and never the table's key, as Python keyword arguments are.
- Store.AddVideoToUser: a missing user yields the error `NoItem`. This stands for the `KeyError` at line 85, where `videos_resp['Item']` is indexed without a guard.
- `upsert`, `upsert_file` and `delete` in `chat_utils.py` are not modelled. They are async vector-store writes with no local logic. `startup`, which only initialises the global vector-store client, is not modelled either: the store is a parameter of `Chat.Ask`.
- `ask` returns `response["choices"][0]["message"]["content"]`. Only the list of choice contents is modelled. An empty list is the `IndexError` and gives `None`; an exception raised by the chat service itself is not modelled.
- Summary.GenerateSummaryPdf: only runs in which every completion call returns are modelled. `get_completion` raises on a service error, or with an `IndexError` at `summary.py:29` on an empty `choices`. `generate_summary_pdf` has no handler, so such a call ends the run with fewer than `2 * slices` calls and no PDF. `Backend.complete` is total, so the model does not state these aborted runs.
- Summary.SummarizeSlices: the same restriction. Its contract describes the loop's complete runs only.
- Store.AddVideoToUser: each call is one atomic step. The source reads the list with `get_item` (`dynamodb_handler.py:78`) and appends with a separate `update_item` (`:104`). Two concurrent invocations for the same `chat_id` can both pass the `not in` test at `:103` and append the id twice. So "stays duplicate-free" and `Store.AddVideoIdempotent` hold only for calls that do not interleave.
- Store.AddNoteToUser: the same atomic-step assumption, for the read at `:122`, the test at `:148` and the append at `:149`. `Store.AddNoteIdempotent` holds only for calls that do not interleave.
- The Telegram handlers, the next-step registration, the YouTube id regular expression, `youtube_video_handler.py` and `user_creds_handler.py` are not modelled.
- `process_summarization` is not modelled. It calls `add_video_to_user` without the client argument (`index.py:162`), so it cannot run as written.
- Bot: `index.py:11` is a module-level `from summary import summarize`, and `summary.py` defines no `summarize`. As written, loading `index.py` raises `ImportError`, so none of its handlers runs, including `/list_my_videos` and `process_event`. The `Bot` module models `index.py` as if that import succeeded.
- Bot.ProcessEvent: the event is assumed to carry `message.chat.username`. `index.py:38` indexes `request_body_dict['message']['chat']['username']` without a guard. An update without `message`, or a chat without a username, raises `KeyError` before any write or key choice, and the model does not state that case.
- Store.AddVideoToUser: no caller in the shown code reaches it as written. `process_transcript` passes the bare video id to `generate_transcript` (`index.py:116`). The capture group of the id pattern (`index.py:17`) excludes `?`, so `parse_qs` finds no `v` and raises `KeyError` (`youtube_video_handler.py:22`) before line 123. `process_summarization` omits the client argument. The finding below concerns a direct call.
- Recursive re-summarisation, a convergence check and a token-budget check on the summaries are not modelled. `generate_summary_pdf` does only one slicing pass.
- The `Backend` parameter supplies the completion results. The model states which prompt each call receives, not what the service answers.

## Findings

| source | as written | input that shows it | evidently intended | confidence | as-written member | corrected member |
|---|---|---|---|---|---|---|
| lambda-func/dynamodb_handler.py:85-103 | When the user item has no `videos`, the function sets `videos = []`. It then reads `data['L']` from the `update_item` response, which is `{'Attributes': ...}`, so it fails and the video is never appended. | A direct call `add_video_to_user(client, chat_id, video_id)` on a user item holding only `chat_id` and `username`, the item `process_event` creates for every new user. No caller in the shown code reaches the function as written. | A missing list starts empty, and the video is appended (the function's docstring). | not executed; high, given DynamoDB's empty `Item` for an item without the projected attribute | Store.FirstVideoIsLost | Store.AddIdToList |
| lambda-func/dynamodb_handler.py:129-148 | The same for `notes`. A missing user or a missing `notes` list leads to `notes = []`, and then `data['L']` fails. | Any user without notes, including one the table does not hold. | A missing list starts empty, and the note is appended. | not executed; high | Store.FirstNoteIsLost | Store.AddIdToList |
