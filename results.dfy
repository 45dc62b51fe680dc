/** Option, Result and the error taxonomy shared by every module of the model. */
module Results {

  datatype Option<T> = None | Some(value: T)

  /** The error conditions the Go code reports with fmt.Errorf, plus Fault for a runtime panic. */
  datatype Error =
    | OutOfBounds        // position outside of the chunk
    | NotPaletted        // chunk image is not paletted
    | PaletteIndex       // colour index outside of the palette
    | NotCovered         // the image does not fill the chunk completely
    | NotDownloading     // the download flag is not set
    | IncompatibleImage  // image kind that cannot be copied or drawn into
    | NotValid           // chunk is not valid
    | NotFound           // chunk does not exist
    | Closed             // listener is closed
    | FormatError        // wrong file magic
    | VersionTooNew      // file format version is newer
    | ShortRead          // the stream ended inside a field
    | UnknownRecord      // record type byte not known
    | Mismatch           // recording made with another chunk size or origin
    | Fault              // a Go runtime panic (index out of range, explicit panic)

  datatype Result<T> = Ok(value: T) | Err(error: Error)
}
