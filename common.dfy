/** Identifiers, sentinels and status codes shared by the storage engine. */
module Common {

  /** A page identifier (`page_id_t`, a signed 32-bit integer). */
  type PageId = int

  /** The sentinel for "no page" (`INVALID_PAGE_ID`). */
  const INVALID_PAGE_ID: PageId := -1

  /** A buffer-pool frame index (`frame_id_t`). */
  type FrameId = int

  /** The sentinel for "no frame" (`INVALID_FRAME_ID`). */
  const INVALID_FRAME_ID: FrameId := -1

  /** The status codes (`dberr_t`) the catalog and the executor return. */
  datatype DbErr =
    | DB_SUCCESS
    | DB_FAILED
    | DB_TABLE_ALREADY_EXIST
    | DB_TABLE_NOT_EXIST
    | DB_INDEX_ALREADY_EXIST
    | DB_INDEX_NOT_FOUND
    | DB_COLUMN_NAME_NOT_EXIST

  datatype Option<T> = None | Some(value: T)

  /** An outcome that either carries a value or the status code that replaced it. */
  datatype Result<T> = Ok(value: T) | Err(error: DbErr)
}
