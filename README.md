# Chat-screen response formatters

A model of the two functions of `components.py` that turn a retrieval
response (an `answer` text and an ordered `context` list of documents, each
with a `source` path and an optional `page`) into the dictionary the chat
screen stores in its conversation history:

- `display_search_llm_response`, the "document search" mode. It gives a fixed
  no-match record, or it gives the first document as the main citation plus
  the later documents as "sub choices". The sub choices skip the main path
  and repeated paths, with the first occurrence winning and the order kept.
- `display_contact_llm_response`, the "inquiry" mode. It gives the answer
  and, unless the answer is the inquiry no-match sentinel, one label per
  document: `path` or `path (ページNo.N)`. It keeps the order and does not
  deduplicate.

Both share one gating rule: a page number is shown only when the path ends in
`.pdf` and the metadata has `page`.

Files:

- `Wrappers.dfy`: `Option` and `Result`.
- `Citation.dfy`: documents, the gating rule, the sub-choice dictionary, the
  decimal page label and the inquiry label `FileInfo`.
- `Dedup.dfy`: `Kept`, the specification of the duplicate-skipping walk,
  with its properties.
- `Components.dfy`: the configuration constants, the record (one `Option`
  field per optional dictionary key, and `Keys` giving the key set), the
  specification functions `SearchRecord` and `InquiryRecord`, the two
  formatters as methods with loops proved equal to them, the lemmas, and the
  keys the history renderer reads.

The constants module (`ANSWER_MODE_1`, `ANSWER_MODE_2`, `NO_DOC_MATCH_ANSWER`,
`NO_DOC_MATCH_MESSAGE`, `INQUIRY_NO_MATCH_ANSWER`) is not part of this model.
Its values are the fields of a `Config` parameter and are left open. The
lead-in texts written in `components.py` itself are constants of the model.

The sub-choice keys are absent exactly when every later document carries the
main path (`Dedup.KeptEmpty`, `Components.SearchMatch`). Later documents that
only repeat one another still leave the first of them in the list.

## Model

| member | source | states |
|---|---|---|
| `Citation.ToSubChoice` | components.py:171-175 | a sub choice keeps the document's path and has `page_number` iff the path ends in `.pdf` and the document has a page, and then it is that page |
| `Citation.DecimalRoundTrip` | components.py:233 | the page number's decimal text reads back as the page number |
| `Citation.FileInfoShape` | components.py:231-235 | an inquiry label starts with the path; it is the bare path iff the gating rule withholds the page, and otherwise it is the path followed by ` (ページNo.`, the page's digits and `)` |
| `Citation.FileInfoDeterminesPagedPdf` | components.py:231-235 | two paged-PDF documents with the same label have the same path and the same page |
| `Dedup.KeptDistinct` | components.py:163-169 | the paths that survive the walk are pairwise distinct and none equals the main path |
| `Dedup.KeptComplete` | components.py:163-169 | a path survives iff it occurs among the walked documents and differs from the main path |
| `Dedup.KeptFirstOccurrence` | components.py:163-175 | each survivor is the document at the first occurrence of its path, so its page is that occurrence's page |
| `Dedup.KeptOrder` | components.py:163-175 | survivors appear in the order of their first occurrences |
| `Dedup.KeptEmpty` | components.py:163-177 | nothing survives iff every walked document carries the main path |
| `Components.DisplaySearchLlmResponse` | components.py:130-206 | the loop with its duplicate list builds exactly the record of `SearchRecord`, including the unbound-variable failure |
| `Components.SearchNoMatch` | components.py:198-204 | with an empty context or the no-match sentinel answer the record is exactly {mode, answer, no_file_path_flg}, with mode 1, the fixed no-match message (the backend's answer is dropped) and the flag true |
| `Components.SearchMatch` | components.py:146-196 | otherwise the record has mode 1, the fixed lead-in and the first document's path, and no flag and no answer; `sub_message` and `sub_choices` are present together, iff some later document has a path other than the main one, and then the list is non-empty and holds the survivors |
| `Components.SearchSubChoices` | components.py:163-175 | each sub choice's path differs from the main path and from every other sub choice's path; it is the first occurrence of its path among the later documents, and it carries that document's page iff that document passes the gating rule |
| `Components.SearchSubChoicesCompleteInOrder` | components.py:163-175 | every later path other than the main one appears among the sub choices, and the sub choices follow the order of first occurrence |
| `Components.SearchDedupExample` | components.py:163-175 | for a.pdf p3, b.txt, a.pdf p5, b.txt the main citation is a.pdf with page 3 and the only sub choice is b.txt |
| `Components.SearchMainPageNumber` | components.py:151-193 | on a match the formatter fails with an unbound `main_page_number` iff the first document has a page and its path does not end in `.pdf`; when it returns, `main_page_number` is present iff the first document has a page, with that page |
| `Components.UnboundMainPageNumberWitness` | components.py:192-193 | a Word document cited first with page 3 makes the formatter raise instead of returning |
| `Components.SearchRecordIntendedAgrees` | components.py:151-152 | the corrected formatter equals the code's record wherever the code returns, and it attaches `main_page_number` iff the first document passes the gating rule |
| `Components.DisplayContactLlmResponse` | components.py:209-253 | the loop over the context builds exactly the record of `InquiryRecord` |
| `Components.InquiryNoMatch` | components.py:247-251 | with the inquiry sentinel answer the record is exactly {mode, answer}, with mode 2 and the answer kept verbatim |
| `Components.InquiryAnswer` | components.py:221-245 | otherwise the record is exactly {mode, answer, message, file_info_list}, with mode 2, the answer verbatim and the label `情報源`; the list is always present and as long as the context, and its i-th entry labels the i-th document, so repeats are kept |
| `Components.StoredRecordsRenderable` | components.py:74-127 | when the two mode names differ, every record the formatters return has the keys the history renderer reads on the branch it takes |

## Left out

- The Streamlit calls (`st.markdown`, `st.success`, `st.info`, `st.divider`, `st.radio`, `st.chat_message`, `st.warning`, `st.code`, `st.sidebar`) are left out. They draw widgets and do not affect the returned record.
- `display_app_title`, `display_select_mode` and `display_initial_ai_message` are left out. They only render widgets, and the radio's writing of `st.session_state.mode` is UI state.
- `display_conversation_log` is left out except for the keys it reads (`RendererKeysPresent`). What it draws and the session-state history it walks are not modelled.
- `utils.get_source_icon` is not part of this model. Icons do not enter the returned record.
- The values of the constants module are not modelled. The model takes them as parameters.
- Only `source` and `page` of a document's metadata are modelled. `page` is taken to be a natural number, and Python's `str` of it is the decimal text. Metadata without `source` (a `KeyError` in the code) and non-integer or negative pages are not modelled.
- Determinism is not stated as a lemma. The formatters are Dafny functions of their input, so it holds by construction.

## Findings

| source | as written | input that shows it | evidently intended | confidence | as-written member | corrected member |
|---|---|---|---|---|---|---|
| components.py:192-193 | `main_page_number` is read whenever the first document's metadata has `page`, but it is assigned only when the path also ends in `.pdf` (lines 151-152) | a response whose answer is not the no-match sentinel and whose first document is `規程.docx` with page 3: `UnboundLocalError` | add the key under the same `.pdf`-and-`page` condition the value is bound under, as the sub choices do | high; not executed | `Components.UnboundMainPageNumberWitness` | `Components.SearchRecordIntendedAgrees` |
