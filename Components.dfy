/** The two response formatters of the chat screen: each turns a retrieval
    response into the dictionary that is stored in the conversation history
    and later redrawn. The widget calls they make along the way are not
    modelled; only the returned dictionary is. */
module Components {
  import opened Wrappers
  import opened Citation
  import opened Dedup

  /** The retrieval backend's response: the answer text and the cited
      documents, most relevant first. */
  datatype LlmResponse = LlmResponse(answer: string, context: seq<Doc>)

  /** The constants the formatters read from the application's constants
      module; their values are configuration and are left open. */
  datatype Config = Config(
    answerMode1: string,          // the "document search" mode name
    answerMode2: string,          // the "inquiry" mode name
    noDocMatchAnswer: string,     // the backend's "no document matched" answer
    noDocMatchMessage: string,    // what the search formatter shows instead
    inquiryNoMatchAnswer: string) // the backend's "nothing relevant" answer

  /** The message dictionary. "mode" is always present; every other key is
      present exactly when its field is Some. */
  datatype Content = Content(
    mode: string,
    answer: Option<string>,
    noFilePathFlg: Option<bool>,
    mainMessage: Option<string>,
    mainFilePath: Option<string>,
    mainPageNumber: Option<nat>,
    subMessage: Option<string>,
    subChoices: Option<seq<SubChoice>>,
    message: Option<string>,
    fileInfoList: Option<seq<string>>)

  /** The exception a formatter can raise. */
  datatype PyError = UnboundLocalError(name: string)

  const MainMessage: string := "入力内容に関する情報は、以下のファイルに含まれている可能性があります。"
  const SubMessage: string := "その他、ファイルありかの候補を提示します。"
  const SourcesLabel: string := "情報源"

  /** A dictionary holding only "mode". */
  function ModeOnly(mode: string): Content {
    Content(mode, None, None, None, None, None, None, None, None, None)
  }

  /** The set of keys of the dictionary. */
  function Keys(c: Content): set<string> {
    {"mode"}
    + (if c.answer.Some? then {"answer"} else {})
    + (if c.noFilePathFlg.Some? then {"no_file_path_flg"} else {})
    + (if c.mainMessage.Some? then {"main_message"} else {})
    + (if c.mainFilePath.Some? then {"main_file_path"} else {})
    + (if c.mainPageNumber.Some? then {"main_page_number"} else {})
    + (if c.subMessage.Some? then {"sub_message"} else {})
    + (if c.subChoices.Some? then {"sub_choices"} else {})
    + (if c.message.Some? then {"message"} else {})
    + (if c.fileInfoList.Some? then {"file_info_list"} else {})
  }

  // ===================== document search mode =====================

  /** The search formatter's no-match test: an empty context, or the
      backend's "no document matched" answer. */
  predicate IsNoMatch(cfg: Config, response: LlmResponse) {
    response.context == [] || response.answer == cfg.noDocMatchAnswer
  }

  /** The record stored when nothing matched. */
  function NoMatchContent(cfg: Config): Content {
    ModeOnly(cfg.answerMode1).(answer := Some(cfg.noDocMatchMessage), noFilePathFlg := Some(true))
  }

  /** The sub choices the walk over the documents after the first produces. */
  function SubChoicesOf(kept: seq<Doc>): seq<SubChoice> {
    seq(|kept|, i requires 0 <= i < |kept| => ToSubChoice(kept[i]))
  }

  /** The record of a match, given the main path, the "main_page_number"
      entry (None: key absent) and the sub choices. */
  function MatchContent(cfg: Config, mainPath: string, mainPage: Option<nat>, subs: seq<SubChoice>): Content {
    var content := ModeOnly(cfg.answerMode1).(mainMessage := Some(MainMessage), mainFilePath := Some(mainPath),
                                              mainPageNumber := mainPage);
    if subs != [] then content.(subMessage := Some(SubMessage), subChoices := Some(subs)) else content
  }

  /** The search formatter as written. "main_page_number" is bound only
      for a paged PDF, yet read whenever the first document has "page", so
      a first document with a page and a path not ending in ".pdf" raises
      UnboundLocalError. */
  function SearchRecord(cfg: Config, response: LlmResponse): Result<Content, PyError> {
    if IsNoMatch(cfg, response) then Success(NoMatchContent(cfg))
    else
      var main := response.context[0];
      var bound := if IsPagedPdf(main) then main.page else None;
      if main.page.Some? && bound.None? then Failure(UnboundLocalError("main_page_number"))
      else
        var subs := SubChoicesOf(Kept(main.source, response.context[1..]));
        Success(MatchContent(cfg, main.source, if main.page.Some? then bound else None, subs))
  }

  /** The search formatter with "main_page_number" read under the same
      condition it is bound under: the gating rule the sub choices follow. */
  function SearchRecordIntended(cfg: Config, response: LlmResponse): Content {
    if IsNoMatch(cfg, response) then NoMatchContent(cfg)
    else
      var main := response.context[0];
      var subs := SubChoicesOf(Kept(main.source, response.context[1..]));
      MatchContent(cfg, main.source, if IsPagedPdf(main) then main.page else None, subs)
  }

  /** display_search_llm_response without its widget calls. */
  method DisplaySearchLlmResponse(cfg: Config, llmResponse: LlmResponse) returns (r: Result<Content, PyError>)
    ensures r == SearchRecord(cfg, llmResponse)
  {
    if llmResponse.context != [] && llmResponse.answer != cfg.noDocMatchAnswer {
      var mainFilePath := llmResponse.context[0].source;
      var mainMessage := MainMessage;
      // None stands for the local variable never having been assigned
      var mainPageNumber: Option<nat> := None;
      if EndsWith(mainFilePath, PdfSuffix) && llmResponse.context[0].page.Some? {
        mainPageNumber := llmResponse.context[0].page;
      }

      var rest := llmResponse.context[1..];
      var subChoices: seq<SubChoice> := [];
      var duplicateCheckList: seq<string> := [];
      for i := 0 to |rest|
        invariant subChoices == SubChoicesOf(Kept(mainFilePath, rest[..i]))
        invariant duplicateCheckList == Sources(Kept(mainFilePath, rest[..i]))
      {
        var document := rest[i];
        var subFilePath := document.source;
        assert rest[..i + 1] == rest[..i] + [document];
        if subFilePath == mainFilePath || subFilePath in duplicateCheckList {
          continue;
        }
        SourcesAppend(Kept(mainFilePath, rest[..i]), document);
        duplicateCheckList := duplicateCheckList + [subFilePath];
        if EndsWith(subFilePath, PdfSuffix) && document.page.Some? {
          subChoices := subChoices + [SubChoice(subFilePath, document.page)];
        } else {
          subChoices := subChoices + [SubChoice(subFilePath, None)];
        }
      }
      assert rest[..|rest|] == rest;

      var content := ModeOnly(cfg.answerMode1).(mainMessage := Some(mainMessage), mainFilePath := Some(mainFilePath));
      if llmResponse.context[0].page.Some? {
        if mainPageNumber.None? {
          return Failure(UnboundLocalError("main_page_number"));
        }
        content := content.(mainPageNumber := mainPageNumber);
      }
      if subChoices != [] {
        content := content.(subMessage := Some(SubMessage), subChoices := Some(subChoices));
      }
      r := Success(content);
    } else {
      r := Success(ModeOnly(cfg.answerMode1).(answer := Some(cfg.noDocMatchMessage), noFilePathFlg := Some(true)));
    }
  }

  /** No match: exactly {mode, answer, no_file_path_flg}, with the fixed
      no-match message in place of whatever the backend answered. */
  lemma SearchNoMatch(cfg: Config, response: LlmResponse)
    requires IsNoMatch(cfg, response)
    ensures SearchRecord(cfg, response).Success?
    ensures var c := SearchRecord(cfg, response).value;
      && Keys(c) == {"mode", "answer", "no_file_path_flg"}
      && c.mode == cfg.answerMode1
      && c.answer == Some(cfg.noDocMatchMessage)
      && c.noFilePathFlg == Some(true)
  {
  }

  /** A match: the first document is the main citation under the fixed
      lead-in, there is no "no_file_path_flg" and no "answer", and the sub
      keys are present together, exactly when some later document carries a
      path other than the main one, holding the survivors of the walk. */
  lemma SearchMatch(cfg: Config, response: LlmResponse)
    requires !IsNoMatch(cfg, response)
    requires SearchRecord(cfg, response).Success?
    ensures var c := SearchRecord(cfg, response).value;
      var main := response.context[0];
      var kept := Kept(main.source, response.context[1..]);
      && c.mode == cfg.answerMode1
      && c.mainMessage == Some(MainMessage)
      && c.mainFilePath == Some(main.source)
      && c.noFilePathFlg.None? && c.answer.None?
      && c.message.None? && c.fileInfoList.None?
      && (c.subMessage.Some? <==> c.subChoices.Some?)
      && (c.subChoices.Some? <==> exists j :: 1 <= j < |response.context| && response.context[j].source != main.source)
      && (c.subMessage.Some? ==> c.subMessage == Some(SubMessage))
      && (c.subChoices.Some? ==> c.subChoices == Some(SubChoicesOf(kept)) && kept != [])
  {
    var main := response.context[0];
    var rest := response.context[1..];
    KeptEmpty(main.source, rest);
    assert (forall i :: 0 <= i < |rest| ==> rest[i].source == main.source)
      <==> (forall j :: 1 <= j < |response.context| ==> response.context[j].source == main.source) by {
      forall j | 1 <= j < |response.context| ensures response.context[j] == rest[j - 1] {}
    }
  }

  /** Each sub choice is the first occurrence of its path among the later
      documents, carries "page_number" exactly when that document passes the
      gating rule, and the sub choices' paths are pairwise distinct and
      differ from the main path. */
  lemma SearchSubChoices(cfg: Config, response: LlmResponse, k: nat)
    requires !IsNoMatch(cfg, response)
    requires SearchRecord(cfg, response).Success?
    requires SearchRecord(cfg, response).value.subChoices.Some?
    requires k < |SearchRecord(cfg, response).value.subChoices.value|
    ensures var subs := SearchRecord(cfg, response).value.subChoices.value;
      var rest := response.context[1..];
      && subs[k].source != response.context[0].source
      && (forall j :: 0 <= j < |subs| && j != k ==> subs[j].source != subs[k].source)
      && subs[k].source in Sources(rest)
      && var d := rest[IndexOf(Sources(rest), subs[k].source)];
         && subs[k].source == d.source
         && (subs[k].pageNumber.Some? <==> IsPagedPdf(d))
         && (subs[k].pageNumber.Some? ==> subs[k].pageNumber == d.page)
  {
    var main := response.context[0].source;
    var rest := response.context[1..];
    var kept := Kept(main, rest);
    SearchSubChoicesAreKept(cfg, response);
    KeptDistinct(main, rest);
    KeptFirstOccurrence(main, rest);
    SourcesHas(kept, k);
  }

  /** The sub choices of a returned match, an absent key read as the empty
      list, are the walk's survivors as dictionaries. */
  lemma SearchSubChoicesAreKept(cfg: Config, response: LlmResponse)
    requires !IsNoMatch(cfg, response)
    requires SearchRecord(cfg, response).Success?
    ensures var c := SearchRecord(cfg, response).value;
      (if c.subChoices.Some? then c.subChoices.value else []) ==
      SubChoicesOf(Kept(response.context[0].source, response.context[1..]))
  {
  }

  /** Every path among the later documents other than the main one appears
      among the sub choices, in the order of first occurrence. */
  lemma SearchSubChoicesCompleteInOrder(cfg: Config, response: LlmResponse)
    requires !IsNoMatch(cfg, response)
    requires SearchRecord(cfg, response).Success?
    ensures var c := SearchRecord(cfg, response).value;
      var subs := if c.subChoices.Some? then c.subChoices.value else [];
      var rest := response.context[1..];
      && (forall x :: x in Sources(rest) && x != response.context[0].source ==>
            exists k :: 0 <= k < |subs| && subs[k].source == x)
      && (forall i, j :: 0 <= i < j < |subs| ==>
            subs[i].source in Sources(rest) && subs[j].source in Sources(rest) &&
            IndexOf(Sources(rest), subs[i].source) < IndexOf(Sources(rest), subs[j].source))
  {
    var main := response.context[0].source;
    var rest := response.context[1..];
    var kept := Kept(main, rest);
    var c := SearchRecord(cfg, response).value;
    var subs := if c.subChoices.Some? then c.subChoices.value else [];
    SearchSubChoicesAreKept(cfg, response);
    assert |subs| == |kept| && forall k :: 0 <= k < |kept| ==> subs[k].source == kept[k].source;
    KeptComplete(main, rest);
    KeptOrder(main, rest);
    forall x | x in Sources(rest) && x != main
      ensures exists k :: 0 <= k < |subs| && subs[k].source == x
    {
      assert x in Sources(kept);
      var k :| 0 <= k < |kept| && Sources(kept)[k] == x;
      assert subs[k].source == x;
    }
  }

  /** A later copy of the main path and a repeated path are both skipped;
      the main document keeps its own page. */
  lemma SearchDedupExample(cfg: Config)
    ensures var response := LlmResponse(cfg.noDocMatchAnswer + "?",
      [Doc("a.pdf", Some(3)), Doc("b.txt", None), Doc("a.pdf", Some(5)), Doc("b.txt", None)]);
      SearchRecord(cfg, response) == Success(MatchContent(cfg, "a.pdf", Some(3), [SubChoice("b.txt", None)]))
  {
    var response := LlmResponse(cfg.noDocMatchAnswer + "?",
      [Doc("a.pdf", Some(3)), Doc("b.txt", None), Doc("a.pdf", Some(5)), Doc("b.txt", None)]);
    assert EndsWith("a.pdf", PdfSuffix);
    assert |response.answer| != |cfg.noDocMatchAnswer|;
    var rest := response.context[1..];
    assert rest[..2][..1] == rest[..1];
    assert rest[..|rest| - 1] == rest[..2];
    assert Kept("a.pdf", rest[..1]) == [Doc("b.txt", None)];
    assert Kept("a.pdf", rest[..2]) == [Doc("b.txt", None)];
    assert Kept("a.pdf", rest) == [Doc("b.txt", None)];
    assert !EndsWith("b.txt", PdfSuffix) by { assert "b.txt"[2] != PdfSuffix[1]; }
    assert SubChoicesOf([Doc("b.txt", None)]) == [SubChoice("b.txt", None)];
    assert IsPagedPdf(response.context[0]);
  }

  /** "main_page_number": the formatter fails exactly when the first document
      has a page and its path does not end in ".pdf"; otherwise the key is
      present exactly when the first document has a page, with that page. */
  lemma SearchMainPageNumber(cfg: Config, response: LlmResponse)
    requires !IsNoMatch(cfg, response)
    ensures var main := response.context[0];
      SearchRecord(cfg, response).Failure? <==> main.page.Some? && !EndsWith(main.source, PdfSuffix)
    ensures SearchRecord(cfg, response).Failure? ==>
      SearchRecord(cfg, response).error == UnboundLocalError("main_page_number")
    ensures SearchRecord(cfg, response).Success? ==>
      SearchRecord(cfg, response).value.mainPageNumber == response.context[0].page
  {
  }

  /** A Word document cited first with a page number makes the formatter
      raise instead of returning a record. */
  lemma UnboundMainPageNumberWitness(cfg: Config)
    ensures var response := LlmResponse(cfg.noDocMatchAnswer + "?", [Doc("規程.docx", Some(3))]);
      SearchRecord(cfg, response) == Failure(UnboundLocalError("main_page_number"))
  {
  }

  /** The corrected formatter never fails, agrees with the code wherever the
      code returns, and attaches "main_page_number" under the gating rule. */
  lemma SearchRecordIntendedAgrees(cfg: Config, response: LlmResponse)
    ensures SearchRecord(cfg, response).Success? ==>
      SearchRecord(cfg, response).value == SearchRecordIntended(cfg, response)
    ensures !IsNoMatch(cfg, response) ==>
      var c := SearchRecordIntended(cfg, response);
      && (c.mainPageNumber.Some? <==> IsPagedPdf(response.context[0]))
      && (c.mainPageNumber.Some? ==> c.mainPageNumber == response.context[0].page)
  {
  }

  // ===================== inquiry mode =====================

  /** The inquiry formatter: no-match keeps only mode and answer; otherwise
      every document, in order and with repeats, becomes a label. */
  function InquiryRecord(cfg: Config, response: LlmResponse): Content {
    if response.answer != cfg.inquiryNoMatchAnswer then
      var labels := seq(|response.context|, i requires 0 <= i < |response.context| => FileInfo(response.context[i]));
      ModeOnly(cfg.answerMode2).(answer := Some(response.answer), message := Some(SourcesLabel),
                                 fileInfoList := Some(labels))
    else
      ModeOnly(cfg.answerMode2).(answer := Some(response.answer))
  }

  /** display_contact_llm_response without its widget calls. */
  method DisplayContactLlmResponse(cfg: Config, llmResponse: LlmResponse) returns (r: Content)
    ensures r == InquiryRecord(cfg, llmResponse)
  {
    if llmResponse.answer != cfg.inquiryNoMatchAnswer {
      var message := SourcesLabel;
      var fileInfoList: seq<string> := [];
      for i := 0 to |llmResponse.context|
        invariant |fileInfoList| == i
        invariant forall k :: 0 <= k < i ==> fileInfoList[k] == FileInfo(llmResponse.context[k])
      {
        var document := llmResponse.context[i];
        var filePath := document.source;
        var fileInfo;
        if EndsWith(filePath, PdfSuffix) && document.page.Some? {
          fileInfo := filePath + PageOpen + Decimal(document.page.value) + PageClose;
        } else {
          fileInfo := filePath;
        }
        assert fileInfo == FileInfo(document);
        fileInfoList := fileInfoList + [fileInfo];
      }
      assert fileInfoList == InquiryRecord(cfg, llmResponse).fileInfoList.value;
      r := ModeOnly(cfg.answerMode2).(answer := Some(llmResponse.answer), message := Some(message),
                                      fileInfoList := Some(fileInfoList));
    } else {
      r := ModeOnly(cfg.answerMode2).(answer := Some(llmResponse.answer));
    }
  }

  /** Inquiry no-match: exactly {mode, answer}, the answer kept verbatim. */
  lemma InquiryNoMatch(cfg: Config, response: LlmResponse)
    requires response.answer == cfg.inquiryNoMatchAnswer
    ensures var c := InquiryRecord(cfg, response);
      Keys(c) == {"mode", "answer"} && c.mode == cfg.answerMode2 && c.answer == Some(response.answer)
  {
  }

  /** Inquiry answer: exactly {mode, answer, message, file_info_list}, the
      list always present, as long as the context, in its order, without
      deduplication, the i-th entry labelling the i-th document. */
  lemma InquiryAnswer(cfg: Config, response: LlmResponse)
    requires response.answer != cfg.inquiryNoMatchAnswer
    ensures var c := InquiryRecord(cfg, response);
      && Keys(c) == {"mode", "answer", "message", "file_info_list"}
      && c.mode == cfg.answerMode2
      && c.answer == Some(response.answer)
      && c.message == Some(SourcesLabel)
      && |c.fileInfoList.value| == |response.context|
      && forall i :: 0 <= i < |response.context| ==>
           var info := c.fileInfoList.value[i];
           var d := response.context[i];
           && |d.source| <= |info| && info[..|d.source|] == d.source
           && (info == d.source <==> !IsPagedPdf(d))
           && (IsPagedPdf(d) ==> info == d.source + PageOpen + Decimal(d.page.value) + PageClose)
  {
  }

  // ===================== the history renderer's reads =====================

  /** The keys display_conversation_log reads from an assistant message, on
      the branch the message's mode and keys select; a record for which this
      fails would raise KeyError when the history is redrawn. */
  predicate RendererKeysPresent(cfg: Config, c: Content) {
    if c.mode == cfg.answerMode1 then
      if c.noFilePathFlg.None? then
        c.mainMessage.Some? && c.mainFilePath.Some? && (c.subMessage.Some? ==> c.subChoices.Some?)
      else c.answer.Some?
    else
      c.answer.Some? && (c.fileInfoList.Some? ==> c.message.Some?)
  }

  /** Every record the formatters store can be redrawn, provided the two
      mode names differ (otherwise an inquiry record would be drawn as a
      search record and lack "main_message"). */
  lemma StoredRecordsRenderable(cfg: Config, response: LlmResponse)
    requires cfg.answerMode1 != cfg.answerMode2
    ensures RendererKeysPresent(cfg, SearchRecordIntended(cfg, response))
    ensures SearchRecord(cfg, response).Success? ==> RendererKeysPresent(cfg, SearchRecord(cfg, response).value)
    ensures RendererKeysPresent(cfg, InquiryRecord(cfg, response))
  {
  }
}
