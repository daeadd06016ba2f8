/**
 * Every fatal condition of the loader. The program prints a "*** ..." line and
 * exits (bailout), or dies on an uncaught exception; the model returns the error.
 */
module Errors {
  datatype Error =
    | UnknownFileType                     // importFile: "Unknown file type"
    | InvalidExportFormat(format: string) // exportImage: "Invalid export format '...'"
    | DeviceReportedError(command: string)// sendCmd: '#' came back ("Error returned for command ...")
    | AckTimeout(command: string)         // sendCmd: anything else or nothing ("Timeout waiting for ACK ...")
    | MalformedByteRead(field: string)    // rcvByte: int(field, 16) raises ValueError
    | ByteOutOfRange(value: int)          // readDataBytes: bytearray.append of a negative value raises
    | NoPortChosen                        // openSerialPort: "Unable to automatically choose a port"
    | PortOpenFailed(name: string)        // _openSerialPort: serial.Serial could not open the port
}
