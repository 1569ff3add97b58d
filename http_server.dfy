/**
 * `TwHttpServer` as an object: its settings, fixed at construction, and the script
 * template loaded when the server starts. The query and block-list loops are proved to
 * compute the functions of `HttpSpec`, where their properties are proved.
 */
module Http {
  import opened Basics
  import opened Text
  import opened PluginHelpers
  import opened HttpSpec

  class TwHttpServer {
    const address: string
    const port: int
    const path: string
    const corsAllowOrigins: Option<seq<string>>
    const cacheSeconds: int
    const wsDefault: Option<string>

    /** The loaded script; `None` until `Start` has read the resource. */
    var jsTemplate: Option<string>

    /** The constructor: a missing or blank path becomes the default one and a negative
        cache lifetime becomes zero. */
    constructor (address: string, port: int, path: Option<string>,
                 corsAllowOrigins: Option<seq<string>>, cacheSeconds: int, wsDefault: Option<string>)
      ensures this.path == ServedPath(path) && !IsBlank(this.path)
      ensures this.cacheSeconds == if cacheSeconds < 0 then 0 else cacheSeconds
      ensures this.address == address && this.port == port
      ensures this.corsAllowOrigins == corsAllowOrigins && this.wsDefault == wsDefault
      ensures jsTemplate.None?
    {
      this.address := address;
      this.port := port;
      this.path := ServedPath(path);
      this.corsAllowOrigins := corsAllowOrigins;
      this.cacheSeconds := if cacheSeconds < 0 then 0 else cacheSeconds;
      this.wsDefault := wsDefault;
      jsTemplate := None;
    }

    /** `start`, up to the socket: the block list is built, and the script resource,
        when it exists, becomes the template. `false` when the resource is missing. */
    method Start(resource: Option<string>, blocks: seq<BlockEntry>) returns (loaded: bool)
      modifies this
      ensures loaded <==> resource.Some?
      ensures loaded ==> jsTemplate == Some(LoadTemplate(resource.value, wsDefault, Some(BlockListJson(blocks))))
      ensures !loaded ==> jsTemplate == old(jsTemplate)
    {
      var blockListJson := BuildBlockListJson(blocks);
      if resource.None? {
        return false;
      }
      jsTemplate := Some(LoadTemplate(resource.value, wsDefault, Some(blockListJson)));
      loaded := true;
    }

    /** `buildBlockListJson`: the list's entries appended in order, commas between. */
    method BuildBlockListJson(blocks: seq<BlockEntry>) returns (json: string)
      ensures json == BlockListJson(blocks)
    {
      var builder := "[";
      for i := 0 to |blocks|
        invariant builder == "[" + JoinWith(EntriesJson(blocks[..i]), ',')
      {
        var entries := EntriesJson(blocks[..i]);
        assert EntriesJson(blocks[..i + 1]) == entries + [EntryJson(blocks[i])];
        if i > 0 {
          builder := builder + ",";
          JoinWithSnoc(entries, EntryJson(blocks[i]), ',');
        } else {
          assert EntriesJson(blocks[..1]) == [EntryJson(blocks[0])];
        }
        builder := builder + EntryJson(blocks[i]);
      }
      assert blocks[..|blocks|] == blocks;
      json := builder + "]";
    }

    /** `extractLang`: the first query part whose decoded key is "lang", in any case,
        gives the tag; there is no tag without a query or without such a part. */
    method ExtractLang(query: Option<string>, decode: string -> string) returns (lang: string)
      ensures lang == LangOfQuery(query, decode)
    {
      if query.None? || query.value == [] {
        return DefaultLang;
      }
      var parts := JavaSplit(query.value, '&');
      var found := FindLangPart(parts, decode);
      if found.None? {
        return DefaultLang;
      }
      var part := parts[found.value];
      var eq := IndexOf(part, '=');
      var value := if eq >= 0 then part[eq + 1..] else "";
      assert value == ValueOf(part);
      return SanitizeLang(Some(decode(value)));
    }

    /** The loop of `extractLang`: the index of the first non-empty part whose decoded
        key is "lang" in any case. */
    method FindLangPart(parts: seq<string>, decode: string -> string) returns (found: Option<nat>)
      ensures found == FirstLangPart(parts, decode)
    {
      for i := 0 to |parts|
        invariant forall j :: 0 <= j < i ==> !IsLangPart(parts[j], decode)
      {
        var part := parts[i];
        if part != [] {
          var eq := IndexOf(part, '=');
          var key := if eq >= 0 then part[..eq] else part;
          assert key == KeyOf(part);
          if EqualsIgnoreCase("lang", decode(key)) {
            return Some(i);
          }
        }
      }
      return None;
    }

    /** `serveJs`: the variant for the query's tag, the status for the method and the
        `If-None-Match` header, and the body when one is sent. `etagOf` stands for
        `calcEtag` over the variant's bytes. */
    method ServeJs(verb: string, query: Option<string>, ifNoneMatch: Option<string>,
                   decode: string -> string, etagOf: string -> string)
      returns (response: Response, body: string)
      requires jsTemplate.Some?
      ensures var variant := VariantText(jsTemplate.value, LangOfQuery(query, decode));
              response == ServeStatus(verb, ifNoneMatch, etagOf(variant))
              && body == if response.withBody then variant else ""
    {
      var lang := ExtractLang(query, decode);
      var variant := VariantText(jsTemplate.value, lang);
      response := ServeStatus(verb, ifNoneMatch, etagOf(variant));
      body := if response.withBody then variant else "";
    }
  }
}
