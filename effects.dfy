/**
 * What a conversion does to the outside world, as a list of events: files
 * saved, directories made and log records issued.  The converters below
 * return these lists instead of performing the I/O.
 */
module Effects {
  import opened Results
  import opened Raster

  /** The standard logging levels the converters use. */
  datatype Level = Debug | Info | Warning | Error

  /** The log messages, by what they report and the values they mention. */
  datatype Message =
    | ConvertingPdf                           // the PDF branch of the older `main`
    | ConvertingIco                           // the ICO branch of the older `main`
    | UnsupportedExtension(ext: string)       // no branch of the older `main` applies
    | SplitIntoPages(input: string)           // older fan-out: several pages
    | PagesInFolder(input: string, folder: string)  // newer fan-out: several pages
    | OpenFailed(input: string)               // the picture could not be decoded
    | SaveFailed                              // the imaging library refused to save
    | Traceback                               // `logger.exception(err)`
    | NotPermitted(ext: string)               // newer `convert`: extension not allowed
    | Converted(input: string, output: string)  // newer `convert`: done

  /** One observable step.  `P` is the type of a rendered PDF page. */
  datatype Effect<P> =
    | SavePage(page: P, dest: string, format: Option<string>)
    | SaveImage(image: Image, dest: string)
    | MakeDir(path: string)
    | Log(level: Level, message: Message)

  /** The events of a run, and the exception that ended it, if any. */
  datatype Run<P> = Run(effects: seq<Effect<P>>, raised: Option<Failure>)

}
