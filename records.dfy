/** The two wrappers the model uses for "maybe" and "value or error". */
module Options {
  datatype Option<+T> = None | Some(value: T)

  datatype Result<+T, +E> = Ok(value: T) | Err(error: E)
}

/**
 * The dictionaries that flow between the extractor, the external summariser
 * and the slide emitter, as values.
 */
module Records {

  /** One float environment lifted out of a section: `{'tipo': ..., 'codigo': ...}`.
      The extractor only produces the kinds "figura" and "tabela"; the emitter
      accepts any string. */
  datatype Asset = Asset(kind: string, code: string)

  const FigureKind: string := "figura"
  const TableKind: string := "tabela"

  /** `{"titulo": ..., "conteudo": ..., "assets": [...]}` as the extractor returns it. */
  datatype Section = Section(title: string, narrative: string, assets: seq<Asset>)

  /** `{"titulo": ..., "autor": ...}`. */
  datatype Metadata = Metadata(title: string, author: string)

  /** A section after summarisation: its bullet topics replace the narrative. */
  datatype Slide = Slide(title: string, topics: seq<string>, assets: seq<Asset>)
}
