/** The record types of types.ts that the query layer produces. */
module Records {
  import opened Values

  /** `MediaKind`: the closed set of attachment kinds. */
  datatype MediaKind = Image | Video | Audio | Document | Sticker | Unknown {

    /** The fixed Portuguese display label each kind carries. */
    function Label(): string {
      match this
      case Image => "Imagem"
      case Video => "Vídeo"
      case Audio => "Áudio"
      case Document => "Documento"
      case Sticker => "Sticker"
      case Unknown => "Desconhecido"
    }
  }

  /** `Conversation`. The query layer copies the row's cells into the record
      without converting them, so the fields are cells. */
  datatype Conversation = Conversation(id: Cell, jid: Cell, subject: Cell, timestamp: Cell)

  /** `Message`; the six media fields are `null` (None) when the message
      carries no media, and with media only `mediaFilePath` may be null.
      `mediaType` duplicates `mediaMime` under the
      field name older callers read. */
  datatype Message = Message(
    id: Cell,
    fromMe: bool,
    textData: Option<string>,
    timestamp: Cell,
    quotedText: Option<string>,
    hasMedia: bool,
    mediaFileName: Option<string>,
    mediaFilePath: Option<string>,
    mediaMime: Option<string>,
    mediaKind: Option<MediaKind>,
    mediaTypeLabel: Option<string>,
    mediaType: Option<string>)
}
