/** Prompt packages as the registry hands them out. */
module Packages {
  import opened Results

  datatype PackageArg = PackageArg(name: string, description: string, required: bool, default: Option<string>)

  datatype PromptPackage = PromptPackage(
    name: string,
    description: string,
    model: Option<string>,
    arguments: seq<PackageArg>,
    body: string)
}
