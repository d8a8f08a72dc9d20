/** The generation workflow of the App component (App.tsx): turning a
    completed generation into the shown result and a history item, the word
    count, reopening a history item, and the result/error/submitting state.
    The call to the generation API is not modelled: its outcome is an input. */
module App {
  import opened Wrappers
  import opened Text
  import opened Types
  import HistoryStore

  /** Shown when the API returned no text. */
  const NoContentText: string := "Failed to generate content."

  /** Shown when the API call failed without a message. */
  const NetworkErrorText: string := "Failed to generate article. Check your connection."

  /** `response.text || "Failed to generate content."`: the article is never
      empty, and a non-empty response text is kept as it is. */
  function ArticleText(responseText: Option<string>): (r: string)
    ensures r != []
    ensures responseText.Some? && responseText.value != [] ==> r == responseText.value
    ensures responseText == None || responseText == Some([]) ==> r == NoContentText
  {
    if responseText.Some? && responseText.value != [] then responseText.value else NoContentText
  }

  /** `articleText.split(/\s+/).length`. */
  function WordCount(article: string): nat {
    |SplitWhitespace(article)|
  }

  /** The stored word count is at least 1 for every response, and it counts
      the whitespace-free pieces that make up the article. */
  lemma GeneratedWordCount(responseText: Option<string>)
    ensures WordCount(ArticleText(responseText)) >= 1
    ensures Flatten(SplitWhitespace(ArticleText(responseText)))
         == RemoveWhitespace(ArticleText(responseText))
  {
    SplitFlattenIsRemoveWhitespace(ArticleText(responseText));
  }

  /** `formData.photo?.data`. */
  function PhotoPayload(photo: Option<PhotoData>): Option<string> {
    if photo.Some? then photo.value.data else None
  }

  /** `formData.photo?.fileName`. */
  function PhotoName(photo: Option<PhotoData>): Option<string> {
    if photo.Some? then Some(photo.value.fileName) else None
  }

  /** The result shown after a successful generation. */
  function GeneratedResult(form: NewsFormData, article: string, generatedAt: string): (r: ApiResponse)
    ensures r.success && r.data.Some?
    ensures r.data.value.article == article && r.data.value.topic == form.topic
    ensures r.data.value.wordCount == WordCount(article) >= 1
    ensures r.data.value.language == form.language.Name()
    ensures r.data.value.generatedAt == generatedAt
    ensures form.photo == None ==> r.data.value.photoBase64 == None && r.data.value.photoFilename == None
    ensures form.photo.Some? ==> r.data.value.photoBase64 == form.photo.value.data
    ensures form.photo.Some? ==> r.data.value.photoFilename == Some(form.photo.value.fileName)
  {
    ApiResponse(true, "Generated", Some(ResultData(
      article, WordCount(article), form.language.Name(),
      PhotoPayload(form.photo), PhotoName(form.photo), generatedAt, form.topic)))
  }

  /** The history item recorded for the same generation; `id` is the fresh
      identifier the browser generates. */
  function GeneratedItem(form: NewsFormData, article: string, generatedAt: string, id: string): (r: HistoryItem)
    ensures r.id == id && r.topic == form.topic && r.article == article
    ensures r.wordCount == WordCount(article) >= 1
    ensures r.language == form.language.Name() && r.generatedAt == generatedAt
    ensures form.photo == None ==> r.photoBase64 == None && r.photoFilename == None
    ensures form.photo.Some? ==> r.photoBase64 == form.photo.value.data
    ensures form.photo.Some? ==> r.photoFilename == Some(form.photo.value.fileName)
  {
    HistoryItem(id, form.topic, article, generatedAt, form.language.Name(),
      PhotoPayload(form.photo), PhotoName(form.photo), WordCount(article))
  }

  /** `loadFromHistory`: every field of the item except its id is copied
      into the shown result. */
  function ResultFromHistory(item: HistoryItem): (r: ApiResponse)
    ensures r.success && r.data.Some?
    ensures r.data.value.topic == item.topic && r.data.value.article == item.article
    ensures r.data.value.wordCount == item.wordCount && r.data.value.language == item.language
    ensures r.data.value.photoBase64 == item.photoBase64 && r.data.value.photoFilename == item.photoFilename
    ensures r.data.value.generatedAt == item.generatedAt
  {
    ApiResponse(true, "Loaded from history", Some(ResultData(
      item.article, item.wordCount, item.language, item.photoBase64,
      item.photoFilename, item.generatedAt, item.topic)))
  }

  /** The history item that records the shown data `data` under `id`. */
  function ItemOf(id: string, data: ResultData): (r: HistoryItem)
    ensures r.id == id && r.topic == data.topic && r.article == data.article
  {
    HistoryItem(id, data.topic, data.article, data.generatedAt, data.language,
      data.photoBase64, data.photoFilename, data.wordCount)
  }

  /** Reopening loses nothing: the item, restored from storage or not, is
      rebuilt from its id and the data reopening shows. */
  lemma ReopenLosesNothing(item: HistoryItem)
    ensures ItemOf(item.id, ResultFromHistory(item).data.value) == item
  {
  }

  /** A generation records as its history item exactly the data it shows. */
  lemma GeneratedItemRecordsResult(form: NewsFormData, article: string, generatedAt: string, id: string)
    ensures GeneratedItem(form, article, generatedAt, id) == ItemOf(id, GeneratedResult(form, article, generatedAt).data.value)
  {
  }

  /** Reopening the history item of a generation shows the same article
      data as the generation itself showed. */
  lemma ReopenShowsGeneratedData(form: NewsFormData, article: string, generatedAt: string, id: string)
    ensures ResultFromHistory(GeneratedItem(form, article, generatedAt, id)).data
         == GeneratedResult(form, article, generatedAt).data
  {
  }

  /** How the awaited generation call ended: with a response whose text may
      be absent, or with an error whose message may be empty. */
  datatype GenerationOutcome = Responded(text: Option<string>) | Failed(message: string)

  /** `err.message || "Failed to generate article. Check your connection."`. */
  function FailureText(message: string): (r: string)
    ensures r != []
    ensures message != [] ==> r == message
    ensures message == [] ==> r == NetworkErrorText
  {
    if message != [] then message else NetworkErrorText
  }

  /** The App component's result, error and submitting state, and its
      history. */
  class AppState {
    var result: Option<ApiResponse>
    var error: Option<string>
    var isSubmitting: bool
    var store: HistoryStore.Store

    ghost predicate Valid()
      reads this, store
    {
      store.Valid()
    }

    constructor Open(saved: Option<string>, parsed: Option<HistoryStore.Json>)
      ensures Valid() && fresh(store)
      ensures result == None && error == None && !isSubmitting
      ensures store.history == HistoryStore.Restore(saved, parsed)
    {
      result := None;
      error := None;
      isSubmitting := false;
      store := new HistoryStore.Store.Open(saved, parsed);
    }

    /** `handleSubmit` from start to end: submitting and no error while the
        call runs; afterwards not submitting, and either the new result
        with its history item in front of the history, or the error with
        result and history unchanged. */
    method Submit(form: NewsFormData, outcome: GenerationOutcome, generatedAt: string, id: string)
      requires Valid()
      modifies this, store
      ensures Valid() && store == old(store)
      ensures !isSubmitting
      ensures outcome.Responded? ==>
        var article := ArticleText(outcome.text);
        && result == Some(GeneratedResult(form, article, generatedAt))
        && error == None
        && store.history == HistoryStore.Prepend(old(store.history), GeneratedItem(form, article, generatedAt, id))
      ensures outcome.Failed? ==>
        && result == old(result)
        && error == Some(FailureText(outcome.message))
        && store.history == old(store.history)
    {
      isSubmitting := true;
      error := None;
      match outcome {
        case Responded(text) =>
          var article := ArticleText(text);
          result := Some(GeneratedResult(form, article, generatedAt));
          store.Insert(GeneratedItem(form, article, generatedAt, id));
        case Failed(message) =>
          error := Some(FailureText(message));
      }
      isSubmitting := false;
    }

    /** `handleClearForm` and `handleResetResult`: no result and no error.
        The form contents that `handleClearForm` also resets are not part of
        this state. */
    method ResetResult()
      modifies this
      ensures result == None && error == None
      ensures isSubmitting == old(isSubmitting) && store == old(store)
    {
      result := None;
      error := None;
    }

    /** Clicking a history card shows its article and clears the error. */
    method ShowFromHistory(item: HistoryItem)
      modifies this
      ensures result == Some(ResultFromHistory(item)) && error == None
      ensures isSubmitting == old(isSubmitting) && store == old(store)
    {
      result := Some(ResultFromHistory(item));
      error := None;
    }
  }
}
