/** The records exchanged between the composer, the CSV import and the
    send endpoint (src/types/index.ts). */
module Types {
  import opened Wrappers

  /** One addressee of a batch; `name` may be empty. */
  datatype Recipient = Recipient(name: string, email: string)

  /** A file attached to every message of a batch; `content` is base64 text
      and is never looked into. */
  datatype Attachment = Attachment(filename: string, content: string, contentType: string)

  /** The body of a send request. */
  datatype EmailData = EmailData(
    subject: string,
    content: string,
    recipients: seq<Recipient>,
    attachments: Option<seq<Attachment>>)
}
