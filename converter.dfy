/** `excelToJson`: the conversion of one parsed sheet into the list of row
    records, with the optional header translation pass in front. Reading the
    workbook and writing the JSON text are outside the model: whether the
    source exists and the rows the parser yields are inputs. */
module Converter {
  import opened Wrappers
  import opened Translation
  import opened Records

  /** The errors the conversion raises. */
  datatype Error =
    | SourceNotFound(path: string)  // `fs.existsSync` is false
    | EmptySheet                    // the sheet yields no row at all
    | OutputPathMissing             // `fs.writeFileSync` is handed no path

  /** A finished conversion: the records and the path the JSON was written to. */
  datatype Conversion = Conversion(records: seq<Record>, writtenTo: string)

  /** The keys the records use: the first row, translated when asked to. */
  function HeadersFor(translator: Translator, firstRow: Row, translateHeaders: bool, tag: string): (headers: seq<string>)
    ensures |headers| == |firstRow|
    ensures !translateHeaders || EngineOf(tag) == None ==> headers == firstRow
  {
    if translateHeaders then TranslateAll(translator, firstRow, tag) else firstRow
  }

  /** excelToJson as written. The library's default output path is null, and
      the write at the end refuses it, so a call without an output path
      converts the sheet and then fails. */
  method ExcelToJson(translator: Translator, sourcePath: string, sourceExists: bool, sheet: seq<Row>,
                     outputPath: Option<string>, translateHeaders: bool, tag: string)
    returns (r: Result<Conversion, Error>)
    ensures !sourceExists ==> r == Failure(SourceNotFound(sourcePath))
    ensures sourceExists && sheet == [] ==> r == Failure(EmptySheet)
    ensures sourceExists && sheet != [] && outputPath == None ==> r == Failure(OutputPathMissing)
    ensures sourceExists && sheet != [] && outputPath.Some? ==>
      r == Success(Conversion(Kept(HeadersFor(translator, sheet[0], translateHeaders, tag), sheet[1..]), outputPath.value))
    ensures sourceExists && |sheet| == 1 && outputPath.Some? ==> r.Success? && r.value.records == []
  {
    if !sourceExists {
      return Failure(SourceNotFound(sourcePath));
    }
    if |sheet| == 0 {
      return Failure(EmptySheet);
    }
    var headers := sheet[0];
    if translateHeaders {
      headers := TranslateHeaders(translator, headers, tag);
    }
    var records := BuildRecords(headers, sheet);
    if outputPath == None {
      return Failure(OutputPathMissing);
    }
    return Success(Conversion(records, outputPath.value));
  }

  /** excelToJson with the evidently intended default: without an output
      path the JSON goes to the path derived from the source path, the
      derivation the command line uses. It fails only for a missing source
      or an empty sheet. */
  method ExcelToJsonWithDefault(translator: Translator, derive: string -> string, sourcePath: string,
                                sourceExists: bool, sheet: seq<Row>, outputPath: Option<string>,
                                translateHeaders: bool, tag: string)
    returns (r: Result<Conversion, Error>)
    ensures r.Failure? <==> !sourceExists || sheet == []
    ensures !sourceExists ==> r == Failure(SourceNotFound(sourcePath))
    ensures sourceExists && sheet == [] ==> r == Failure(EmptySheet)
    ensures sourceExists && sheet != [] ==>
      r == Success(Conversion(Kept(HeadersFor(translator, sheet[0], translateHeaders, tag), sheet[1..]),
                              if outputPath.Some? then outputPath.value else derive(sourcePath)))
    ensures sourceExists && |sheet| == 1 ==> r.Success? && r.value.records == []
  {
    var path := if outputPath.Some? then outputPath.value else derive(sourcePath);
    r := ExcelToJson(translator, sourcePath, sourceExists, sheet, Some(path), translateHeaders, tag);
  }
}
