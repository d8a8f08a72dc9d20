/** The records of types.ts that the modelled code builds and reads. */
module Types {
  import opened Wrappers

  /** The article languages offered by the form. */
  datatype Language = Hindi | English | Hinglish {

    /** The enum's string value, which is what history items store. */
    function Name(): string {
      match this
      case Hindi => "Hindi"
      case English => "English"
      case Hinglish => "Hinglish"
    }
  }

  /** The tones offered by the form. */
  datatype Tone = Professional | Urgent | Casual | Formal

  /** The form's fields; `date` is the `datetime-local` input's text. */
  datatype NewsFormData = NewsFormData(
    topic: string,
    facts: string,
    location: string,
    date: string,
    sources: string,
    language: Language,
    tone: Tone,
    wordCount: int,
    email: string,
    photo: Option<PhotoData>)

  /** An uploaded photo: the base64 payload without its data-URL prefix,
      the whole data URL for the preview, and the file's own metadata.
      `data` is `None` where the source's `split(',')[1]` is `undefined`. */
  datatype PhotoData = PhotoData(
    fileName: string,
    mimeType: string,
    data: Option<string>,
    preview: string,
    size: nat)

  /** One stored generation, newest first in the history list. The optional
      photo fields are `None` when no photo was attached. */
  datatype HistoryItem = HistoryItem(
    id: string,
    topic: string,
    article: string,
    generatedAt: string,
    language: string,
    photoBase64: Option<string>,
    photoFilename: Option<string>,
    wordCount: int)

  /** The `data` part of an API response, shown by the article preview. */
  datatype ResultData = ResultData(
    article: string,
    wordCount: int,
    language: string,
    photoBase64: Option<string>,
    photoFilename: Option<string>,
    generatedAt: string,
    topic: string)

  /** An API response; `data` is absent on a response without content. */
  datatype ApiResponse = ApiResponse(
    success: bool,
    message: string,
    data: Option<ResultData>)
}
