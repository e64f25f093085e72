/** The JSON-backed template manager. Every public call first rebuilds the
    in-memory array from templates.json; every successful mutation then
    rewrites the whole file from that array. */
module TemplateStore {
  import opened Outcomes
  import opened PhpArray
  import opened Dto

  /** Templates are keyed by their integer id. */
  function TemplateKey(t: Template): int {
    t.id
  }

  class TemplateManager {
    /** Whether templates.json is found. */
    var fileExists: bool
    /** The records templates.json holds, in array order. */
    var file: seq<Template>
    /** The `$templates` field: id => template, in insertion order. */
    var templates: seq<(int, Template)>

    constructor (fileExists: bool, file: seq<Template>)
      ensures this.fileExists == fileExists && this.file == file && templates == []
    {
      this.fileExists := fileExists;
      this.file := file;
      templates := [];
    }

    /** The array a load builds from the current file. */
    ghost function Stored(): seq<(int, Template)>
      reads this
    {
      KeyBy(file, TemplateKey)
    }

    /** Resets the array and keys every record of the file by its id. */
    method LoadTemplatesFromFile() returns (o: Outcome)
      modifies this`templates
      ensures o == if fileExists then Pass else Fail(FileNotFound)
      ensures templates == if fileExists then Stored() else old(templates)
    {
      if !fileExists {
        return Fail(FileNotFound);
      }
      templates := [];
      for i := 0 to |file|
        invariant templates == KeyBy(file[..i], TemplateKey)
      {
        assert file[..i + 1][..i] == file[..i];
        templates := Put(templates, file[i].id, file[i]);
      }
      assert file[..|file|] == file;
      return Pass;
    }

    /** Rewrites the file with the array's values, in order. */
    method SaveTemplatesToFile() returns (o: Outcome)
      modifies this`file
      ensures o == if fileExists then Pass else Fail(FileNotFound)
      ensures file == if fileExists then Values(templates) else old(file)
    {
      if !fileExists {
        return Fail(FileNotFound);
      }
      var normalized: seq<Template> := [];
      for i := 0 to |templates|
        invariant normalized == Values(templates[..i])
      {
        assert templates[..i + 1][..i] == templates[..i];
        normalized := normalized + [templates[i].1];
      }
      assert templates[..|templates|] == templates;
      file := normalized;
      return Pass;
    }

    method GetTemplate(templateId: int) returns (r: Result<Template>)
      modifies this`templates
      ensures templates == if fileExists then Stored() else old(templates)
      ensures !fileExists ==> r == Err(FileNotFound)
      ensures fileExists && HasKey(Stored(), templateId) ==>
                r == Ok(Get(Stored(), templateId)) && r.value.id == templateId
      ensures fileExists && !HasKey(Stored(), templateId) ==> r == Err(UndefinedKey)
    {
      var o := LoadTemplatesFromFile();
      if o.Fail? {
        return Err(o.error);
      }
      if HasKey(templates, templateId) {
        r := Ok(Get(templates, templateId));
      } else {
        r := Err(UndefinedKey);
      }
    }

    method GetAllTemplates() returns (r: Result<seq<(int, Template)>>)
      modifies this`templates
      ensures templates == if fileExists then Stored() else old(templates)
      ensures r == if fileExists then Ok(Stored()) else Err(FileNotFound)
    {
      var o := LoadTemplatesFromFile();
      if o.Fail? {
        return Err(o.error);
      }
      r := Ok(templates);
    }

    method GetAllTemplatesByIndex() returns (r: Result<seq<Template>>)
      modifies this`templates
      ensures templates == if fileExists then Stored() else old(templates)
      ensures !fileExists ==> r == Err(FileNotFound)
      ensures fileExists ==>
                && r.Ok? && |r.value| == |Stored()|
                && forall i :: 0 <= i < |Stored()| ==> r.value[i] == Stored()[i].1
    {
      var o := LoadTemplatesFromFile();
      if o.Fail? {
        return Err(o.error);
      }
      r := Ok(Values(templates));
    }

    /** Id 0 asks for the next id, one above the largest stored id (or 1).
        An id already stored is refused before anything is written. */
    method AddTemplate(template: TemplateDto) returns (o: Outcome)
      modifies this`templates, this`file, template`id
      ensures !fileExists ==>
                && o == Fail(FileNotFound)
                && templates == old(templates) && file == old(file) && template.id == old(template.id)
      ensures fileExists ==>
                var loaded := KeyBy(old(file), TemplateKey);
                var id := if old(template.id) == 0 then MaxKey(loaded) + 1 else old(template.id);
                && template.id == id
                && (HasKey(loaded, id) ==>
                      o == Fail(DuplicateKey) && templates == loaded && file == old(file))
                && (!HasKey(loaded, id) ==>
                      && o == Pass
                      && templates == loaded + [(id, Template(id, template.message))]
                      && file == Values(templates)
                      && Stored() == templates)
    {
      o := LoadTemplatesFromFile();
      if o.Fail? {
        return;
      }
      if template.GetId() == 0 {
        var maxId := MaxId(templates);
        template.SetId(maxId + 1);
      }
      if !HasKey(templates, template.GetId()) {
        // array_merge renumbers the integer keys of the in-memory array; only
        // the values are saved and every call reloads, so that is not observable.
        PutKeyed(templates, TemplateKey, template.Value());
        templates := templates + [(template.GetId(), template.Value())];
      } else {
        return Fail(DuplicateKey);
      }
      o := SaveTemplatesToFile();
      assert o.Pass? ==> Stored() == templates by {
        SaveThenLoad(templates, TemplateKey);
      }
    }

    /** Replaces the stored template with the same id where it stands. */
    method UpdateTemplate(updatedTemplate: TemplateDto) returns (o: Outcome)
      modifies this`templates, this`file
      ensures !fileExists ==> o == Fail(FileNotFound) && templates == old(templates) && file == old(file)
      ensures fileExists ==>
                var loaded := KeyBy(old(file), TemplateKey);
                var id := updatedTemplate.id;
                && (!HasKey(loaded, id) ==>
                      o == Fail(NoSuchRecord) && templates == loaded && file == old(file))
                && (HasKey(loaded, id) ==>
                      && o == Pass
                      && |templates| == |loaded|
                      && templates[IndexOf(loaded, id)] == (id, updatedTemplate.Value())
                      && (forall j :: 0 <= j < |loaded| && j != IndexOf(loaded, id) ==> templates[j] == loaded[j])
                      && file == Values(templates)
                      && Stored() == templates)
    {
      o := LoadTemplatesFromFile();
      if o.Fail? {
        return;
      }
      var id := updatedTemplate.GetId();
      if HasKey(templates, id) {
        ghost var loaded := templates;
        var updated := updatedTemplate.Value();
        PutKeyed(loaded, TemplateKey, updated);
        templates := Put(templates, id, updated);
        assert |templates| == |loaded| && templates[IndexOf(loaded, id)] == (id, updated);
      } else {
        return Fail(NoSuchRecord);
      }
      o := SaveTemplatesToFile();
      assert o.Pass? ==> Stored() == templates by {
        SaveThenLoad(templates, TemplateKey);
      }
    }

    /** Removes the stored template with this id; the others keep their order. */
    method DeleteTemplate(templateId: int) returns (o: Outcome)
      modifies this`templates, this`file
      ensures !fileExists ==> o == Fail(FileNotFound) && templates == old(templates) && file == old(file)
      ensures fileExists ==>
                var loaded := KeyBy(old(file), TemplateKey);
                && (!HasKey(loaded, templateId) ==>
                      o == Fail(NoSuchRecord) && templates == loaded && file == old(file))
                && (HasKey(loaded, templateId) ==>
                      && o == Pass
                      && templates == loaded[..IndexOf(loaded, templateId)] + loaded[IndexOf(loaded, templateId) + 1..]
                      && !HasKey(templates, templateId)
                      && file == Values(templates)
                      && Stored() == templates)
    {
      o := LoadTemplatesFromFile();
      if o.Fail? {
        return;
      }
      if HasKey(templates, templateId) {
        RemoveKeyed(templates, TemplateKey, templateId);
        templates := Remove(templates, templateId);
      } else {
        return Fail(NoSuchRecord);
      }
      o := SaveTemplatesToFile();
      assert o.Pass? ==> Stored() == templates by {
        SaveThenLoad(templates, TemplateKey);
      }
    }
  }
}
